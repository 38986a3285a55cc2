# A verified model of the packet pipeline

PcapConstrictorAFPacket captures packets, decodes them, follows the TLS records and QUIC connection IDs of
their flows, shortens packets whose encrypted payload need not be kept, and writes classic PCAP files. This
project models that pipeline in Dafny and proves what it promises: for every input, over every run.

| file | what it holds |
|---|---|
| `Bytes.dfy`, `Config.dfy` | fixed-width integers, byte strings, the settings that the policy reads |
| `PacketDecode.dfy`, `PacketFrames.dfy`, `PacketOutcomes.dfy` | the decoder; frames built from header fields, and decoding as the inverse; every packet and what decoding reports of it |
| `TlsConstrictor.dfy`, `TlsTraces.dfy`, `TlsRecords.dfy`, `TlsStreams.dfy`, `TlsConnections.dfy` | the per-direction TLS record tracker; its runs; records on the wire; its agreement with the byte stream; single connections |
| `QuicConstrictor.dfy`, `QuicPackets.dfy`, `QuicTraces.dfy`, `QuicVerdicts.dfy` | the QUIC connection-ID learner; packets serialized and parsed back; its runs; the verdict on every datagram |
| `LiveCapturePolicy.dfy`, `PolicyReasons.dfy`, `PolicyTraces.dfy`, `PolicyHistories.dfy`, `PolicyExamples.dfy` | the decision per packet; its reason and length from the packet and the trackers' answers; whole traces of packets; what a decision owes to earlier packets; concrete packets |
| `PcapFile.dfy`, `PcapReader.dfy`, `PcapWriter.dfy`, `PcapOutcomes.dfy` | the file format and its round trips; the reader and the writer; every file and what reading it yields |
| `OfflinePacketFeed.dfy`, `OfflineConservation.dfy` | reader, policy, writer and statistics in one loop; what it conserves |
| `RingMachine.dfy`, `RingProtocol.dfy`, `RingRuns.dfy`, `RingFrames.dfy` | the TPACKET_V3 ring as a two-party state machine; its invariant; its runs; blocks laid out byte by byte, and the frames that come out of them |
| `RingCapture.dfy`, `RingCalls.dfy` | the ring consumer as an object; its calls as parts of a run |

Each stateful class of the source is a class here, with the source's fields and loops. Its methods are proved
equal to a step function (`Tls.PacketStep`, `Quic.PacketStep`, `Policy.PolicyStep`, `PcapFile.ReadAll`,
`OfflineFeed.Expected`, `RingMachine.Consume`), and the theorems are about runs of those steps.

Main results:

- *Decoder*: every packet has one of seven forms, written down byte by byte, and the form decides every field that
  decoding reports, failures included; so a packet decodes to a transport header exactly if it is the frame of a TCP
  segment or UDP datagram (`PacketOutcomes`).
- *TLS*: over every run, from wherever a direction starts afresh (a SYN or RST, a gap, or an entry that has lost
  synchronization), whatever came before, entry and verdict of the incremental tracker are those of a reader of
  the whole stream after every data segment if and only if no segment ends inside a record header or runs past the
  end of an earlier application data record; so segmentation does not matter (`TlsStreams`). A direction is stored
  and confirmed exactly when a Handshake was accepted in either direction since the last SYN or RST, and sequence
  numbers matter only relative to one another (`TlsTraces`).
- *QUIC*: serialization and the walk over coalesced packets are inverse in both directions, a datagram is malformed
  exactly if it is no coalescing of packets, and the verdict on any other follows from its packets and what is
  known of its receiver (`QuicVerdicts`); that is the source connection ID of the last long header with which the
  receiver announced one (`QuicTraces`).
- *Policy*: from the form of a packet and the settings follows whether a tracker is asked and what, and from its
  answer the length and the reason of the decision (`PolicyReasons`). Flows do not influence one another. In every
  trace of packets, a cut goes back to a Handshake, or with `require_dcid_match` to an announced connection ID, in a
  packet of its own flow (`PolicyHistories`). Raising keep settings never shortens anything, and raising the snaplen
  shortens a packet exactly when it lifts a cut over the savings threshold. What a cut leaves is final, for TLS in
  every later state, for QUIC exactly when the learner then proposes nothing shorter that saves enough.
- *Files*: writer and reader are inverse; every file is a header, whole records and a leftover, which decide what is
  read and how it ends; the offline feed conserves packets, order and bytes, and succeeds exactly on a good header
  followed by whole records (`PcapOutcomes`).
- *Ring*: over all interleavings of kernel and consumer, the frames that the kernel laid out are returned in the order
  filled and exactly once, damaged blocks cost one error each, views stay valid until the next call, and everything
  filled is delivered within a known number of consumer steps, however much the kernel fills meanwhile.

Where code and expectation differ, the code is modelled, the exact condition is proved, and concrete inputs show
the less obvious cases:

- A segment that ends inside a record header leaves the one-shot entry, but is answered Malformed, and the next
  one is read as if it started with a record; a first segment of fewer than five bytes is answered NoRecord.
  A segment that runs past the end of an earlier application data record resets the direction:
  `TlsStreams.SegmentAgreement`, `TlsStreams.AfterSplitHeader`; in single connections,
  `TlsConnections.OpeningSegment`, `TlsConnections.OverrunningSegment`.
- A SYN that carries data throws the tracker out of step by one, because the SYN's own sequence number is not
  counted. The segment that TCP sends next finds a synchronized direction in step exactly if the one before was
  no SYN, and the data of a SYN is taken in exactly if it begins with a Handshake record header:
  `TlsConnections.StaysInStepIffNoSyn`, `TlsConnections.SynDataIsTakenIffHandshake`; with and without the flag,
  `TlsConnections.HandshakeInSyn`.
- The cut is at the *last* application data record that starts in a segment, so records of another type that
  follow it there are dropped too. Nothing but application data is lost exactly if the segment's last record is
  application data: `TlsTraces.LostBehindCut`; an alert that is lost, `TlsTraces.AlertIsLost`.
- Raising the snaplen can shorten a packet: `PolicyTraces.SnaplenMonotoneIff`; such a packet,
  `PolicyExamples.SnaplenCanShorten`.
- A timestamp survives the file only between the epoch and 2^32 seconds: `PcapWriting.TimestampRoundTrip`; from file
  to file, `OfflineConservation.OutputConservesInput`.
- The decoder counts VLAN tags in eight bits, so the count wraps: `PacketFrames.TagsRoundTrip`.
- A QUIC cut that removes only what follows the IP packet leaves a record that still decodes and is judged anew:
  `PolicyTraces.QuicCutIsFinal`; one that is cut again, `PolicyExamples.CutRecordIsCutAgain`.

Standards: section 5.1 of RFC 8446 (TLS records); sections 12.2, 16, 17.2, 17.2.2, 17.2.5 and 17.3.1 of
RFC 9000 (QUIC); IEEE 802.1Q, RFC 791, RFC 8200, RFC 9293 and RFC 768 (frames). The encoders that stand for them
(`TlsRecords`, `QuicPackets`, `PacketFrames`, `RingFrames`, `PcapFile`) are written with the standards' own numbers,
independently of the constants that the parsers use.

Run `dafny verify dfyconfig.toml` to check the project.

## Model

| member | source | states |
|---|---|---|
| PacketDecode.DecodePacket | src/decode/PacketDecode.cpp:286-323 | the VLAN loop and the layer dispatch compute `Decoded`, of which the lemmas below say what it means |
| PacketDecode.DecodeIpv4 | src/decode/PacketDecode.cpp:137-197 | the IPv4 layer fills in the fields, or reports the failure, that `Ipv4Decoded` says, in all branches |
| PacketDecode.DecodeIpv6 | src/decode/PacketDecode.cpp:199-245 | the same for IPv6, including the refused extension headers |
| PacketDecode.DecodeTcp | src/decode/PacketDecode.cpp:65-103 | the same for TCP |
| PacketDecode.DecodeUdp | src/decode/PacketDecode.cpp:105-135 | the same for UDP |
| PacketDecode.DecodedIsWellFormed | src/decode/PacketDecode.cpp:137-245 | a decode without failure has link, network and transport headers and the payload one after the other inside the packet, TCP payload up to the end of the IP packet, addresses zero-padded |
| PacketDecode.PrefixStability | src/decode/PacketDecode.cpp:137-323 | if a prefix of a packet decodes without failure, the whole packet decodes to the identical result |
| PacketDecode.CutDecodesIffIpPacketKept | src/decode/PacketDecode.cpp:168-172 | a decodable IP packet cut to n bytes still decodes if and only if the whole IP packet is kept |
| PacketFrames.FrameRoundTrip | src/decode/PacketDecode.cpp:286-323 | for every frame with any VLAN tags, an unfragmented IPv4 packet or IPv6 packet without extension headers, of any length, TCP or UDP, with or without options, and any trailer, decoding reports exactly the fields the frame was built from, and the payload stands where it says |
| PacketFrames.TagsRoundTrip | src/decode/PacketDecode.cpp:298-310 | any number of VLAN tags is stripped down to the EtherType behind the last, and counted modulo 256 |
| PacketFrames.NetworkRoundTrip | src/decode/PacketDecode.cpp:137-245 | such an IP header in front of a transport header decodes to both, wherever it stands |
| PacketFrames.LinkRoundTrip | src/decode/PacketDecode.cpp:286-323 | any tags of the types 0x8100 and 0x88A8 decode to their number and the EtherType behind them, and the network layer starts there |
| PacketFrames.IpRoundTrip | src/decode/PacketDecode.cpp:137-245 | for every IP header, protocol and body: IPv4 and IPv6 headers decode to their fields; eight extension headers are refused, fragments are not looked into, and any other body goes to the transport layer up to the end of the IP packet |
| PacketOutcomes.FormDecides | src/decode/PacketDecode.cpp:65-323 | a packet of each of seven forms (too short, cut tag, no IP, bad IPv4 header, bad IPv6 header, IP without a whole TCP or UDP packet, whole) decodes to exactly the outcome of its form, with the reason of failure where there is one |
| PacketOutcomes.EveryPacketHasForm | src/decode/PacketDecode.cpp:65-323 | every packet has one of these forms |
| PacketOutcomes.DecodesIffFrame | src/decode/PacketDecode.cpp:65-323 | a packet decodes to a transport header if and only if it is the frame of a TCP segment or UDP datagram |
| Tls.TlsConstrictor.Evaluate | src/policy/TlsConstrictor.cpp:97-283 | keeps the table invariant; the new table and the answer are those of `PacketStep` on the old table |
| Tls.TlsConstrictor.EvaluatePayload | src/policy/TlsConstrictor.cpp:133-282 | from the lookup on: the table after one nonempty segment stores the entry of `DirectionStep`, confirms the reverse on a Handshake, or erases, also when a direction is its own reverse |
| Tls.TlsConstrictor.ContinueActiveRecord | src/policy/TlsConstrictor.cpp:159-186 | an active record continues, ends exactly, or is passed; only the exact end of application data proposes a cut, and running past it resets |
| Tls.TlsConstrictor.ScanRecords | src/policy/TlsConstrictor.cpp:188-247 | the record loop rejects exactly what is not accepted, and otherwise absorbs the whole list of headers of the segment and ends with the cut of the last application data record |
| Tls.TlsConstrictor.AcceptRecord | src/policy/TlsConstrictor.cpp:209-244 | one accepted header: entry, reverse confirmation and cut |
| Tls.PacketStepKeepsInvariant | src/policy/TlsConstrictor.cpp:97-283 | every packet, decodable or not, keeps the table invariant |
| Tls.StepKeepsInvariant | src/policy/TlsConstrictor.cpp:119-282 | every segment keeps it: stored entries are confirmed, an active record implies synchronized with 1 to 65535 bytes left and is constrictible exactly if application data, no active record means cleared fields, and keys come with their reverse |
| Tls.DirectionStepKeepsInvariant | src/policy/TlsConstrictor.cpp:133-282 | one direction: an entry is left exactly when the direction was confirmed or a Handshake was accepted, and it satisfies the state invariant |
| Tls.RecordsStayInBounds | src/policy/TlsConstrictor.cpp:38-54 | record headers found in a segment lie inside it and have a TLS content type |
| TlsTraces.ReachableTableInvariant | src/policy/TlsConstrictor.cpp:97-283 | every table reachable from the empty one satisfies the invariant |
| TlsTraces.StoredAfterStep | src/policy/TlsConstrictor.cpp:119-122 | a direction is stored after a segment exactly when this segment confirms its flow, or it was stored and its flow is not reset |
| TlsTraces.ConfirmationHistory | src/policy/TlsConstrictor.cpp:191-257 | in every reachable table a direction is stored, and confirmed, exactly when a Handshake header was accepted in either direction since the flow's last SYN or RST |
| TlsTraces.CutNeedsHandshake | src/policy/TlsConstrictor.cpp:191-282 | a segment is cut only in a flow with such a Handshake |
| TlsTraces.EntryAfterStep | src/policy/TlsConstrictor.cpp:119-282 | what a data segment leaves for its own direction, after its flags have had their effect, also if it is its own reverse |
| TlsTraces.StepIsLocal | src/policy/TlsConstrictor.cpp:110-134 | a segment is judged by its own flow's two entries alone and changes no other |
| TlsTraces.ShiftInvariance | src/policy/TlsConstrictor.cpp:56-58 | adding any constant modulo 2^32 to all sequence numbers of one direction changes no verdict of any run |
| TlsTraces.LastAppDataIsLast | src/policy/TlsConstrictor.cpp:219-244 | the record a cut refers to is the last application data header of the segment, and there is one if any header is application data |
| TlsTraces.CutIsSound | src/policy/TlsConstrictor.cpp:168-282 | a cut keeps everything before the last application data record that starts in the segment plus min(keep, its bytes here), or, in a segment that ends one, min(continuation keep, segment) |
| TlsTraces.HeadersAreConsecutive | src/policy/TlsConstrictor.cpp:192-246 | the record headers found in a segment follow one another without a gap, from where the loop starts |
| TlsTraces.LostBehindCut | src/policy/TlsConstrictor.cpp:219-282 | no record of another type starts behind the cut if and only if the segment's last record is application data |
| TlsTraces.AlertIsLost | src/policy/TlsConstrictor.cpp:219-282 | a concrete segment, application data then an alert, of which a keep setting up to five leaves only that many bytes, and no alert |
| TlsTraces.KeepMonotone | src/policy/TlsConstrictor.cpp:168-244 | keep settings never reach the table, and raising them never moves a cut forward |
| TlsRecords.HeaderOnWire | src/policy/TlsConstrictor.cpp:38-54 | a record header is read exactly where five bytes stand that are one: a content type from 20 to 23, major version 3, any minor version, and the length in network order |
| TlsRecords.HeadersFollowStream | src/policy/TlsConstrictor.cpp:188-247 | the headers found in a segment that starts at a record are those of the stream, up to where the segment ends |
| TlsRecords.LastFollowsStream | src/policy/TlsConstrictor.cpp:188-244 | the last application data header found in such a segment is that of the last application data record of the stream that starts in it |
| TlsStreams.SegmentAgreement | src/policy/TlsConstrictor.cpp:146-282 | one segment in sequence leaves the entry and gets the verdict of a reader of the whole stream if and only if it is clean: AppDataPrefix exactly if the cut, behind the kept bytes of the last application data record that starts in it or of a segment that ends one, shortens it, and NoApplicationData otherwise; and the exact entry and verdict of each kind of segment that is not clean |
| TlsStreams.AfterSplitHeader | src/policy/TlsConstrictor.cpp:188-247 | after a segment that ended inside a record header, the next in sequence is read as if it started with a record: if its first bytes are no header, it is Malformed and the entry stands at a record boundary; if they are, the entry is the place, and the application data seen, that the headers found there describe, and the verdict is Malformed exactly if they end in a bad one |
| TlsStreams.StreamAgreementFrom | src/policy/TlsConstrictor.cpp:119-282 | from any table with the invariant whose direction is, or is made by the first segment, unsynchronized: for every run that delivers in order a prefix of a record stream (starting with any record once confirmed, with a Handshake before), amid any other traffic, entry and verdict are those of a reader of the whole stream after every data segment if and only if every one is clean |
| TlsStreams.UnsynchronizedBegins | src/policy/TlsConstrictor.cpp:146-157 | a stream can begin wherever a stored direction is unsynchronized or the first segment leaves a gap, with any first record, and whether application data was seen is carried over |
| TlsStreams.ResumedAgreement | src/policy/TlsConstrictor.cpp:119-282 | over every run from the empty table, at every point in it where a stream can begin: from there on entries and verdicts are those of a reader of the stream if and only if every data segment is clean, and then the run ends in its state |
| TlsStreams.StreamAgreement | src/policy/TlsConstrictor.cpp:119-282 | the same since the flow's last SYN or RST, or from the empty table if there was none, after any history; at the end of a clean run the entry is the one-shot state of everything delivered since |
| TlsStreams.SegmentationDoesNotMatter | src/policy/TlsConstrictor.cpp:119-282 | two runs that have delivered equally much of a stream in clean segments since the flow's last reset end in the same entry, whatever came before |
| TlsConnections.OpeningSegment | src/policy/TlsConstrictor.cpp:188-282 | a connection with SYN, SYN and ACK, and a first segment of any length: NoRecord and no entry below five bytes, Malformed with the one-shot entry where the second header is split, followed where it is not |
| TlsConnections.OpeningIsInOrder | src/policy/TlsConstrictor.cpp:119-122 | that connection meets the hypotheses of the agreement, and is clean exactly if its segment is |
| TlsConnections.OverrunningSegment | src/policy/TlsConstrictor.cpp:159-282 | a connection whose first segment is cut behind what is kept of its application data, and whose second brings the last byte of it: that byte alone is followed, and cut exactly if the continuation keep is 0; with any more, the segment is kept whole and the direction reset to one that is confirmed and has carried application data |
| TlsConnections.ResetsExactly | src/policy/TlsConstrictor.cpp:119-122 | a segment without payload forgets both directions of its flow exactly if its flags have the SYN or the RST bit, and changes nothing else |
| TlsConnections.StaysInStepIffNoSyn | src/policy/TlsConstrictor.cpp:56-58 | after a nonempty segment that leaves its direction synchronized, the segment that TCP sends next finds it in step if and only if the first was no SYN |
| TlsConnections.SynDataIsTakenIffHandshake | src/policy/TlsConstrictor.cpp:119-201 | a SYN with data leaves an entry if and only if its data begins with a Handshake record header; then the entry is synchronized, and TCP's next segment out of step |
| TlsConnections.HandshakeInSyn | src/policy/TlsConstrictor.cpp:119-282 | a Handshake of two segments, for all flags of the first: the second is NoApplicationData if the first was no SYN, and NoRecord if it was |
| Quic.ReadVarint | src/policy/QuicConstrictor.cpp:138-157 | the loop reads the big-endian number of the length class that the first byte selects, or fails where bytes are missing |
| Quic.ParseLongHeader | src/policy/QuicConstrictor.cpp:159-210 | the parser succeeds exactly on a long header and returns its type, version, connection IDs and size |
| Quic.LongHeaderSize | src/policy/QuicConstrictor.cpp:194-209 | a parsed long header takes at least 7 bytes and stays inside the datagram, so the walk advances |
| Quic.WalkEnds | src/policy/QuicConstrictor.cpp:271-299 | the walk ends inside the datagram, and unless malformed at its end or at a byte that starts no long header |
| Quic.QuicConstrictor.LearnLongHeaders | src/policy/QuicConstrictor.cpp:271-290 | the walk learns from every header it parses, also before a malformed one, in the entry of this flow alone |
| Quic.QuicConstrictor.JudgeShortHeader | src/policy/QuicConstrictor.cpp:292-346 | the verdict on what follows, against the connection ID of the receiver |
| Quic.QuicConstrictor.EvaluateDatagram | src/policy/QuicConstrictor.cpp:270-346 | walk and verdict leave the table and answer of the datagram step |
| Quic.QuicConstrictor.Evaluate | src/policy/QuicConstrictor.cpp:249-347 | the new table and the answer are those of `PacketStep` on the old table |
| QuicPackets.EightBytesFit | src/policy/QuicConstrictor.cpp:145-154 | exactly the values below 2^62 have an eight-byte varint |
| QuicPackets.VarintRoundTrip | src/policy/QuicConstrictor.cpp:138-157 | a varint reads back as the encoded value in all four sizes, wherever it stands |
| QuicPackets.PacketRoundTrip | src/policy/QuicConstrictor.cpp:159-210 | every serialized long-header packet (nonzero version, connection IDs of at most 20 bytes) parses back, a Retry if it is last |
| QuicPackets.CoalescedRoundTrip | src/policy/QuicConstrictor.cpp:271-296 | the walk over any list of such packets with an optional short-header tail recovers each header and stops exactly at the tail |
| QuicVerdicts.PacketWasWritten | src/policy/QuicConstrictor.cpp:159-210 | every long header that parses is that of a packet serialized there by section 17.2 of RFC 9000: a token exactly in an Initial, no Length exactly in a Retry, connection IDs of at most 20 bytes |
| QuicVerdicts.DatagramWasWritten | src/policy/QuicConstrictor.cpp:271-296 | every datagram that the walk does not find malformed is the coalescing of such packets and a tail that starts no long header |
| QuicVerdicts.MalformedIffNoSplit | src/policy/QuicConstrictor.cpp:271-278 | the walk finds a datagram malformed if and only if there is no such splitting |
| QuicVerdicts.BeginningIsWalked | src/policy/QuicConstrictor.cpp:273-290 | packets at the beginning of a datagram are found, and taught, whatever follows them |
| QuicVerdicts.DatagramVerdict | src/policy/QuicConstrictor.cpp:270-346 | the verdict on every datagram in each of its cases, with the bytes kept, and what it teaches, from its packets, what is behind them and the ID expected of its receiver |
| QuicVerdicts.UnsplitVerdict | src/policy/QuicConstrictor.cpp:276-278 | a datagram that is no coalescing of packets is MalformedFallback |
| QuicTraces.EndpointsAreOrdered | src/policy/QuicConstrictor.cpp:49-77 | comparing the two ends is antisymmetric and zero only for equal ends |
| QuicTraces.CanonicalKeys | src/policy/QuicConstrictor.cpp:89-113 | two datagrams share a key if and only if they are of one flow, and between distinct ends the direction tells the sender |
| QuicTraces.StoredAfterStep | src/policy/QuicConstrictor.cpp:279-290 | a datagram changes what is stored for a sender exactly if it comes from it and announces a nonempty ID |
| QuicTraces.LearningHistory | src/policy/QuicConstrictor.cpp:273-290 | in every reachable table, what is stored for an endpoint is the source ID of the latest long header with a nonempty one that it sent in the flow, also before a malformed tail |
| QuicTraces.ExpectedIsStored | src/policy/QuicConstrictor.cpp:305-311 | between distinct ends, the ID expected of a datagram is the one stored for its receiver as a sender |
| QuicTraces.SelfFlowExpectsNothing | src/policy/QuicConstrictor.cpp:281-311 | over every run, nothing is ever expected of an end that talks to itself |
| QuicTraces.MatchedShortHeader | src/policy/QuicConstrictor.cpp:305-346 | a match means the bytes after the first equal the expected ID, or none is known and the options allow it; the cut keeps long headers, first byte and ID, and nothing beyond the setting |
| QuicTraces.MatchNeedsAnnouncement | src/policy/QuicConstrictor.cpp:313-336 | with `require_dcid_match`, over every run, a short header is matched only between distinct ends, and its ID was announced by the receiver as its own |
| QuicTraces.StepTwice | src/policy/QuicConstrictor.cpp:270-346 | a datagram seen twice in a row teaches nothing new and gets the same verdict |
| QuicTraces.StepIsLocal | src/policy/QuicConstrictor.cpp:270-311 | a datagram is judged by its own flow's entry alone and changes no other |
| QuicTraces.KeepMonotone | src/policy/QuicConstrictor.cpp:318-346 | the keep setting never reaches table or disposition, and raising it never moves a cut forward |
| Policy.LiveCapturePolicy.Evaluate | src/policy/LiveCapturePolicy.cpp:80-180 | both trackers' tables and the decision are those of `PolicyStep` on the old tables; the TLS invariant is kept |
| Policy.DecodedAddressesArePadded | src/policy/LiveCapturePolicy.cpp:145-152 | whenever the QUIC learner is asked, the decoded addresses are padded as its keys need |
| PolicyReasons.AskedExactly | src/policy/LiveCapturePolicy.cpp:100-158 | a tracker is asked exactly about a sane packet with a whole TCP segment or UDP datagram, with its protocol enabled and either port configured, that has payload or, for TCP, SYN or RST; and it is given exactly the fields of the frame |
| PolicyReasons.DecisionOfPacket | src/policy/LiveCapturePolicy.cpp:81-171 | for every packet in every state: without a question, the least of five limits and the reason of its form; with one, length and reason in each case of the tracker's verdict, a cut being made exactly if it saves enough; and the trackers' next state |
| PolicyTraces.StepKeepsValid | src/policy/LiveCapturePolicy.cpp:80-180 | every packet keeps the trackers' invariant |
| PolicyTraces.CutSavesEnough | src/policy/LiveCapturePolicy.cpp:81-171 | the reason is a constricted one exactly when the output is below the baseline, and then saves at least max(1, minimum); the output never exceeds the bytes at hand |
| PolicyTraces.TlsCutIsTrackerCut | src/policy/LiveCapturePolicy.cpp:122-138 | a TLS cut keeps all headers and exactly the tracker's part of the payload, and ends inside the IP packet |
| PolicyTraces.QuicCutIsLearnerCut | src/policy/LiveCapturePolicy.cpp:145-163 | a QUIC cut keeps all headers and exactly the learner's part of the payload |
| PolicyTraces.CutRecordIsFixedPoint | src/policy/LiveCapturePolicy.cpp:95-121 | a record cut below the end of its IP packet passes unchanged in any tracker state and leaves that state alone |
| PolicyTraces.TlsCutIsFinal | src/policy/LiveCapturePolicy.cpp:95-138 | what a TLS cut leaves is never cut again, in any later state |
| PolicyTraces.QuicCutIsFinal | src/policy/LiveCapturePolicy.cpp:95-163 | a QUIC cut ends within the IP packet; what it leaves keeps its length in a later state if and only if the cut is below the end of the IP packet or the learner then proposes nothing shorter that saves the minimum; it is a fixed point in the state the cut leaves |
| PolicyTraces.OutputFollowsCut | src/policy/LiveCapturePolicy.cpp:121-163 | the output is the baseline, or the proposed cut if that saves enough |
| PolicyTraces.NonInterference | src/policy/LiveCapturePolicy.cpp:121-171 | in any interleaved trace, the decisions on one flow are those on the trace of that flow alone, for both tables together |
| PolicyTraces.SettingsMonotone | src/policy/LiveCapturePolicy.cpp:131-163 | over any trace, raising any keep setting or the savings threshold shortens no output packet and changes no tracker state |
| PolicyTraces.SnaplenMonotoneIff | src/policy/LiveCapturePolicy.cpp:88-163 | raising the snaplen does not shorten a packet if and only if not: cut < old baseline < cut + threshold <= new baseline |
| PolicyExamples.SnaplenCanShorten | src/policy/LiveCapturePolicy.cpp:21-34 | a concrete packet that a snaplen of 62 shortens to 43 bytes and one of 50 leaves at 50 |
| PolicyExamples.CutRecordIsCutAgain | src/policy/LiveCapturePolicy.cpp:145-163 | a concrete trace: a QUIC cut takes a trailer off a packet, 68 to 62 bytes; after the receiver has announced a shorter connection ID, the record is cut to 44 |
| PolicyHistories.TracesAreRuns | src/policy/LiveCapturePolicy.cpp:121-163 | the tables after any trace of packets are those of the runs of the segments and datagrams in it that the trackers are given |
| PolicyHistories.PacketConfirmation | src/policy/LiveCapturePolicy.cpp:122-128 | after every trace of packets, a direction is stored if and only if a packet of its flow carried an accepted Handshake and no later one was a SYN or RST |
| PolicyHistories.TlsCutHasHandshake | src/policy/LiveCapturePolicy.cpp:122-138 | in every trace, a packet cut for TLS has a packet of its flow before it, or is one itself, whose Handshake was accepted, with no SYN or RST of the flow since |
| PolicyHistories.PacketLearning | src/policy/LiveCapturePolicy.cpp:145-152 | after every trace of packets, the ID stored for an endpoint is the one announced by the last of its packets in the flow that announced any |
| PolicyHistories.QuicMatchHasAnnouncement | src/policy/LiveCapturePolicy.cpp:145-163 | in every trace, with `require_dcid_match`, a packet whose short header is matched, cut or not, goes between distinct ends and carries the ID that its receiver announced in an earlier packet of the flow, the last to announce any |
| PcapFile.GlobalHeaderRoundTrip | src/offline/PcapReader.cpp:142-203 | a global header reads back in both byte orders and precisions |
| PcapFile.FileRoundTrip | src/offline/PcapReader.cpp:209-303 | every file of stored packets, in either byte order, reads back to them in order with a clean end |
| PcapFile.RecordsTile | src/offline/PcapReader.cpp:289-301 | record headers tile the file from offset 24, and indices count up |
| PcapFile.FileSize | src/writer/PcapWriter.cpp:62-66 | a file takes 16 bytes per record plus the bytes kept |
| PcapFile.TruncatedRecords | src/offline/PcapReader.cpp:214-300 | reading any cut of a record sequence returns the records wholly in it and says exactly what is missing |
| PcapFile.TruncatedFile | src/offline/PcapReader.cpp:214-300 | the same for every cut of a file at 24 bytes or more, header included |
| PcapFile.CleanIffBoundary | src/offline/PcapReader.cpp:223-278 | a cut file ends cleanly exactly at a record boundary; otherwise trailing bytes, or available + missing = expected, add up |
| PcapOutcomes.HeaderDecides | src/offline/PcapReader.cpp:142-203 | a global header with any fields is read back, and refused for the first thing wrong with it: the version, the snaplen or the link type |
| PcapOutcomes.OpensIffGood | src/offline/PcapReader.cpp:142-207 | a file opens if and only if it begins with a header of version 2.4, nonzero snaplen and link type 1, in one of four magic numbers |
| PcapOutcomes.WithoutMagic | src/offline/PcapReader.cpp:142-170 | files of less than 24 bytes, of the next-generation format and with any other magic number are refused as such |
| PcapOutcomes.RecordsDecide | src/offline/PcapReader.cpp:209-303 | whole records followed by a leftover (nothing, part of a header, impossible lengths, part of the data) are read back in order, and the file ends as the leftover says |
| PcapOutcomes.RecordsWereWritten | src/offline/PcapReader.cpp:209-303 | everything behind a global header is whole records and such a leftover |
| PcapReading.PcapReader.ReadExact | src/offline/PcapReader.cpp:14-21 | succeeds exactly if the bytes are there, and then moves past them |
| PcapReading.PcapReader.Open | src/offline/PcapReader.cpp:120-207 | succeeds exactly on a valid global header, and then stands before all records of the file |
| PcapReading.PcapReader.ReadNext | src/offline/PcapReader.cpp:209-303 | returns the next record of `ReadAll` and keeps the rest ahead, or ends as the file ends, with the tail account; the stream position stays in step |
| PcapWriting.PcapWriter.WriteLe32 | src/writer/PcapWriter.cpp:77-85 | appends the four bytes that read back as the value in little-endian order |
| PcapWriting.PcapWriter.WriteLe16 | src/writer/PcapWriter.cpp:69-75 | the same for two bytes |
| PcapWriting.PcapWriter.WriteGlobalHeader | src/writer/PcapWriter.cpp:26-40 | writes the header once |
| PcapWriting.PcapWriter.WritePacket | src/writer/PcapWriter.cpp:46-67 | refuses exactly more bytes than there are; otherwise the output becomes the file with one more entry, header before the first |
| PcapWriting.EncodeFileSnoc | src/writer/PcapWriter.cpp:52-66 | appending a record to a file gives the file of one more entry |
| PcapWriting.WriterRoundTrip | src/writer/PcapWriter.cpp:26-67 | what the writer wrote reads back packet by packet: kept bytes, lengths, order, timestamps to the microsecond, clean end |
| PcapWriting.TimestampRoundTrip | src/writer/PcapWriter.cpp:54-59 | a timestamp reads back rounded down to its microsecond if and only if it lies between the epoch and 2^32 seconds |
| PcapWriting.BeforeEpoch | src/writer/PcapWriter.cpp:54-59 | before the epoch, both fields are those of the instant as far behind it, negated modulo 2^32 |
| PcapWriting.FieldsSurvive | src/offline/PcapReader.cpp:85-93 | in-range timestamp fields of an input record are written unchanged, nanoseconds cut to microseconds |
| OfflineFeed.OfflinePacketFeed.FeedPacket | src/offline/OfflinePacketFeed.cpp:82-83 | one packet: the policy's step, and its record appended to the output; the writer never refuses |
| OfflineFeed.OfflinePacketFeed.Run | src/offline/OfflinePacketFeed.cpp:47-103 | the loop over reader, policy, writer and counters yields output, statistics and success as read off the input |
| OfflineFeed.TallyCounts | src/offline/OfflinePacketFeed.cpp:85-88 | totals are the numbers of packets and bytes |
| OfflineFeed.ReasonCounters | src/offline/OfflinePacketFeed.cpp:17-43 | each policy counter is the number of decisions with the reasons it is documented to count |
| OfflineFeed.NothingGained | src/offline/OfflinePacketFeed.cpp:101 | no more bytes are output than input, so the saved bytes never underflow |
| OfflineConservation.ReadRecordsAreSane | src/offline/PcapReader.cpp:250-281 | every record returned has as many bytes as announced and no more than the original |
| OfflineConservation.EntriesAreCuts | src/offline/OfflinePacketFeed.cpp:72-84 | the written records read back as one cut per input record, of the decided length |
| OfflineConservation.OutputConservesInput | src/offline/OfflinePacketFeed.cpp:64-103 | for every readable input, however it ends: the output reads back to as many records, in order, each a prefix with original length preserved; its timestamp is the same instant, to the microsecond, if and only if the input's seconds with what its fraction carries fit in 32 bits, and has the same fields if the fraction is in range; size is 24 + 16n + bytes output; no records, no output |
| OfflineConservation.StatsAddUp | src/offline/OfflinePacketFeed.cpp:85-102 | all packets are written, and bytes input = bytes output + bytes saved |
| OfflineConservation.StatsOfFailure | src/offline/OfflinePacketFeed.cpp:85-102 | a run that fails behind the header has counted what it wrote, and no saved bytes |
| PcapOutcomes.SucceedsIffWhole | src/offline/OfflinePacketFeed.cpp:47-103 | a run succeeds if and only if the input is a good header followed by whole records |
| RingMachine.Consume | src/capture/AfPacketTpacketV3Capture.cpp:225-322 | one pass of a loop keeps the indices inside the ring and leaves a call only from the top of the loop |
| RingProtocol.InitialInvariant | src/capture/AfPacketTpacketV3Capture.cpp:201-205 | a ring that has just been opened satisfies the protocol's invariant |
| RingProtocol.FillKeepsInvariant | src/capture/AfPacketTpacketV3Capture.cpp:451-463 | a kernel fill, at any moment, keeps ownership, bounds, delivery order and error account |
| RingProtocol.ReleaseKeepsOwnership | src/capture/AfPacketTpacketV3Capture.cpp:552-567 | handing back the current block keeps the user-owned blocks exactly those filled and not yet handed back, in order |
| RingProtocol.HandBackKeepsInvariant | src/capture/AfPacketTpacketV3Capture.cpp:414-418 | handing back a block keeps the invariant if nothing more can be got out of it and its damage is counted exactly once |
| RingProtocol.ActivateKeepsInvariant | src/capture/AfPacketTpacketV3Capture.cpp:509-542 | activating keeps it, whether the block is empty, badly described or good |
| RingProtocol.DeliverKeepsInvariant | src/capture/AfPacketTpacketV3Capture.cpp:280-308 | returning a packet keeps it, also when the chain of headers breaks off after it |
| RingProtocol.FinishKeepsInvariant | src/capture/AfPacketTpacketV3Capture.cpp:231-262 | finishing a block, or giving it up at an unreadable header, keeps it |
| RingProtocol.ConsumeKeepsInvariant | src/capture/AfPacketTpacketV3Capture.cpp:225-322 | every step of the consumer, whatever the stop flag and the poll say, keeps it |
| RingRuns.RunKeepsInvariant | src/capture/AfPacketTpacketV3Capture.cpp:214-322 | every interleaving of fills and steps keeps it |
| RingRuns.HistoryIsFaithful | src/capture/AfPacketTpacketV3Capture.cpp:214-322 | the recorded history is what the kernel had room for and what the calls returned |
| RingRuns.ExactlyOnceFifo | src/capture/AfPacketTpacketV3Capture.cpp:225-322 | over every run of an opened ring: packets returned, followed by those pending, are the packets of all blocks filled, in order |
| RingRuns.DamageIsCountedOnce | src/capture/AfPacketTpacketV3Capture.cpp:243-306 | over every run the error counter is the error returns plus the damaged blocks handed back, plus one while the current one has been given up |
| RingRuns.NextHeaderAlwaysFits | src/capture/AfPacketTpacketV3Capture.cpp:242-246 | in every reachable state an active block is user-owned, index <= count, and while packets remain the next header fits, so the discard for it is unreachable |
| RingRuns.ReturnTakesHead | src/capture/AfPacketTpacketV3Capture.cpp:226-314 | a packet return takes the head of what is pending; Timeout, Interrupted and Error take nothing and leave every block alone; stop and timeout are told apart |
| RingRuns.ReturnsExactly | src/capture/AfPacketTpacketV3Capture.cpp:225-314 | when a step returns each status: Interrupted, Timeout and Error by the stop flag and the poll, and a packet if and only if the active block still has one |
| RingRuns.OffsetsIncrease | src/capture/AfPacketTpacketV3Capture.cpp:295-306 | header offsets strictly increase within an activation |
| RingRuns.ReturnedViewStaysIntact | src/capture/AfPacketTpacketV3Capture.cpp:284-308 | a returned view lies in a user-owned block and stays so, byte for byte, until the next call, whatever the kernel fills |
| RingRuns.RingGoesRound | src/capture/AfPacketTpacketV3Capture.cpp:552-567 | after every run both indices are the numbers of blocks handed back and filled, modulo the ring, and the kernel is never more than one ring ahead |
| RingRuns.WorkDecreases | src/capture/AfPacketTpacketV3Capture.cpp:225-322 | unless asked to stop, each consumer step reduces the work left towards handing back the first blocks filled, whatever its polls say |
| RingRuns.FillAddsNoWork | src/capture/AfPacketTpacketV3Capture.cpp:451-463 | a fill adds no work towards blocks already filled |
| RingRuns.GoalIsReached | src/capture/AfPacketTpacketV3Capture.cpp:225-322 | over any interleaving with as many unstopped consumer steps as there is work, those blocks are handed back |
| RingRuns.EverythingIsDelivered | src/capture/AfPacketTpacketV3Capture.cpp:225-322 | over any interleaving with fills, within the bound of unstopped consumer steps every block filled at the start is handed back and the packets of all of them are the first ones returned; if nothing more was filled, every damaged block is counted |
| RingRuns.UndamagedIffLaidOut | src/capture/AfPacketTpacketV3Capture.cpp:525-535 | a block is undamaged if and only if readable headers at increasing offsets link up to the announced number; then exactly those packets are got out of it |
| RingFrames.HeaderRoundTrip | src/capture/AfPacketTpacketV3Capture.cpp:248-263 | the six fields of a packet header laid out in 48 bytes are read back |
| RingFrames.RefusalIff | src/capture/AfPacketTpacketV3Capture.cpp:242-301 | when a header cannot be used, in terms of its fields: data beyond the block or longer than the packet, no next header, a block that cannot hold what it announces |
| RingFrames.CellRoundTrip | src/capture/AfPacketTpacketV3Capture.cpp:280-293 | of a frame laid out behind its header, the packet returned has exactly the bytes, both lengths and the time in whole microseconds |
| RingFrames.BlockRoundTrip | src/capture/AfPacketTpacketV3Capture.cpp:242-308 | every block of such frames is read back frame by frame, in order, and is undamaged |
| RingFrames.FramesAreDelivered | src/capture/AfPacketTpacketV3Capture.cpp:225-322 | over every run in which the kernel fills such blocks, the calls return the captured frames, in order and exactly once, with no error but failed polls |
| RingCapture.AfPacketTpacketV3Capture.constructor | src/capture/AfPacketTpacketV3Capture.cpp:201-205 | the consumer of a ring owned by the kernel starts in the initial state |
| RingCapture.AfPacketTpacketV3Capture.ReleaseCurrentBlock | src/capture/AfPacketTpacketV3Capture.cpp:552-567 | clears the status word and the position and moves to the next block, and changes nothing else |
| RingCapture.AfPacketTpacketV3Capture.DiscardCurrentBlock | src/capture/AfPacketTpacketV3Capture.cpp:414-418 | the same, with one error |
| RingCapture.AfPacketTpacketV3Capture.ActivateCurrentBlock | src/capture/AfPacketTpacketV3Capture.cpp:509-542 | takes the machine's activation step |
| RingCapture.AfPacketTpacketV3Capture.WaitForReadyBlock | src/capture/AfPacketTpacketV3Capture.cpp:451-507 | waits as the machine does: until the block is ready, or a return, or the schedule ends |
| RingCapture.AfPacketTpacketV3Capture.TakePacket | src/capture/AfPacketTpacketV3Capture.cpp:242-308 | returns the packet at the position or gives the block up, as the machine does |
| RingCapture.AfPacketTpacketV3Capture.MoveToNextPacket | src/capture/AfPacketTpacketV3Capture.cpp:295-306 | moves past a returned packet, or to the end of a block whose chain breaks off |
| RingCapture.AfPacketTpacketV3Capture.ReceiveNext | src/capture/AfPacketTpacketV3Capture.cpp:214-322 | one call leaves the ring where the machine's steps over the same schedule leave it, and returns what they return |
| RingCalls.CallIsRun | src/capture/AfPacketTpacketV3Capture.cpp:214-322 | a call is a run of the steps of the moments it uses, with no return before its own |
| RingCalls.CallReturnsNextPacket | src/capture/AfPacketTpacketV3Capture.cpp:280-314 | the n-th packet that calls return is the n-th packet that the kernel filled; a call that returns none has taken none |

## Left out

- Socket, mmap, poll and setsockopt set-up and teardown, `recvmsg` capture and promiscuous mode: calls into the kernel. A poll is an outcome given from outside.
- `ValidateRingLayout`: four comparisons on settings; the model asks only that the ring has a block.
- The best-effort direction and interface index of a packet from `sockaddr_ll`: a lookup that influences nothing modelled.
- `src/main.cpp`, `ConfigLoader` and the hash functions: argument handling, a key dispatch, and bucket placement that equal keys share anyway.
- Error message text, and failures of the file system or of a stream: a file is a byte string. The reader's branches for a short read after its size check and for an offset past the end cannot be taken then, and are proved dead.
- TLS `stream` and `bulk` policies: the source has no implementation.
- The object that the source updates through a reference into its hash table (`state` in `TlsConstrictor::Evaluate`, `flow_state` in `QuicConstrictor::Evaluate`, `result` in the decoder) is a local value here that is written back. Where the reference could alias the reverse entry, the model writes back before touching it.
- `Evaluate` of the TLS tracker and of the QUIC learner, and the loop body of the offline feed, are split into a few methods, one per phase of the source's function.
- The unsynchronized answer after the record loop (src/policy/TlsConstrictor.cpp:273-276) is part of the method but no case of `DirectionStep`: the equality of the two proves it unreachable.
- The position of a packet in the ring mapping: blocks are separate byte strings with a status word and two parsed fields, and `sizeof(tpacket3_hdr)` is 48.
- RingCapture.AfPacketTpacketV3Capture.ReceiveNext: runs over a finite schedule of kernel fills, stop flags and poll outcomes, because the source's loop need not end; a schedule that ends first gives `None`. The run theorems cover every finite prefix.
- Quic.QuicConstrictor.Evaluate: asks for zero-padded addresses, which every decode without failure gives (`Policy.DecodedAddressesArePadded`).
- PcapWriting.TimestampRoundTrip: time points count nanoseconds from the epoch as unbounded integers, so overflow of the clock's own representation is not modelled.
