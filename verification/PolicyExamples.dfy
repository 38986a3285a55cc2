/** Concrete packets for what the policy does against expectation: a larger snaplen that shortens a packet, and a
    record that a QUIC cut leaves and that is cut again. */
module PolicyExamples {
  import opened Bytes
  import opened Config
  import opened PacketDecode
  import opened PacketFrames
  import opened Policy
  import opened PolicyTraces
  import opened PolicyHistories
  import Quic
  import QuicTraces

  // ---------------------------------------------------------------------------------------------
  // A flow between 1.1.1.1, port 443, and 2.2.2.2, port 80

  function Side(left: bool): (address: seq<byte>)
    ensures |address| == 4
  {
    if left then [1, 1, 1, 1] else [2, 2, 2, 2]
  }

  function PortOf(left: bool): u16 {
    if left then 443 else 80
  }

  function EndOf(left: bool): Quic.Endpoint {
    Quic.Endpoint(Padded(Side(left)), 4, PortOf(left))
  }

  function HeaderOf(left: bool): Network {
    Ip4(0, 0, false, false, false, 0, 64, 0, Side(left), Side(!left), [])
  }

  function UdpOf(left: bool, payload: seq<byte>): Transport {
    UdpDatagram(PortOf(left), PortOf(!left), 0, payload, [])
  }

  /** A frame of 42 bytes of headers, a payload and a trailer. */
  function UdpFrame(left: bool, payload: seq<byte>, trailer: seq<byte>): (frame: seq<byte>)
    requires |payload| <= 100
    ensures |frame| == 42 + |payload| + |trailer|
  {
    Frame([0, 0, 0, 0, 0, 0, 0, 0, 0, 0, 0, 0], [], HeaderOf(left), UdpOf(left, payload), trailer)
  }

  /** A cut at the end of the payload takes away the trailer. */
  lemma {:induction false} WithoutTrailer(left: bool, payload: seq<byte>, trailer: seq<byte>)
    requires |payload| <= 100
    ensures UdpFrame(left, payload, trailer)[..42 + |payload|] == UdpFrame(left, payload, [])
  {
    hide Network.Encode;
    hide Transport.Encode;
    hide TypeBytes;
  }

  function DatagramFrom(left: bool, payload: seq<byte>): Quic.Datagram {
    Quic.Datagram(Ipv4, EndOf(left), EndOf(!left), payload)
  }

  /** How such a frame is decoded. */
  lemma {:induction false} FrameFields(left: bool, payload: seq<byte>, trailer: seq<byte>)
    requires |payload| <= 100
    ensures var decoded := Decoded(UdpFrame(left, payload, trailer));
            && decoded.failureReason == NoFailure && decoded.ipVersion == Ipv4 && decoded.transportProtocol == Udp
            && decoded.addressLength == 4
            && Quic.Endpoint(decoded.srcAddress, 4, decoded.srcPort) == EndOf(left)
            && Quic.Endpoint(decoded.dstAddress, 4, decoded.dstPort) == EndOf(!left)
            && decoded.transportPayloadOffset == 42 && decoded.transportPayloadLength == |payload|
    ensures UdpFrame(left, payload, trailer)[42..42 + |payload|] == payload
  {
    hide Decoded;
    hide Frame;
    FrameRoundTrip([0, 0, 0, 0, 0, 0, 0, 0, 0, 0, 0, 0], [], HeaderOf(left), UdpOf(left, payload), trailer);
  }

  /** The datagram in such a frame. */
  lemma {:induction false} FrameDatagram(
    packet: CapturedPacket, left: bool, payload: seq<byte>, trailer: seq<byte>, config: PolicyConfig)
    requires 0 < |payload| <= 100 && packet.Bytes() == UdpFrame(left, payload, trailer) && !packet.Malformed()
    requires config.quic.enabled && 443 in config.quic.ports
    ensures var decoded := Decoded(packet.Bytes());
            && decoded.transportProtocol == Udp
            && decoded.transportPayloadOffset == 42
            && AsksQuic(decoded, Classify(packet, decoded, config))
            && Quic.ForQuic(decoded, config.quic)
    ensures DatagramIn(packet, config) == Some(DatagramFrom(left, payload))
  {
    hide Decoded;
    hide UdpFrame;
    hide WellFormedDecode;
    FrameFields(left, payload, trailer);
    TransportIsInBounds(packet);
  }

  /** The decision on such a frame, from what the learner answers. */
  lemma {:induction false} FrameDecision(
    state: PolicyState, packet: CapturedPacket, left: bool, payload: seq<byte>, trailer: seq<byte>,
    config: PolicyConfig)
    requires 0 < |payload| <= 100 && packet.Bytes() == UdpFrame(left, payload, trailer) && !packet.Malformed()
    requires config.quic.enabled && 443 in config.quic.ports
    ensures DatagramIn(packet, config) == Some(DatagramFrom(left, payload))
    ensures DatagramFrom(left, payload).WellFormed()
    ensures var (next, verdict) := Quic.TableStep(state.quic, DatagramFrom(left, payload), config.quic);
            && PolicyStep(state, packet, config).0 == state.(quic := next)
            && PolicyStep(state, packet, config).1.outputLen
               == QuicAnswer(Quic.AnswerOf(verdict, 42), Baseline(packet, config), config).0
            && PolicyStep(state, packet, config).1.reason
               == QuicAnswer(Quic.AnswerOf(verdict, 42), Baseline(packet, config), config).1
  {
    hide Decoded;
    hide UdpFrame;
    hide DatagramFrom;
    hide WellFormedDecode;
    hide QuicAnswer;
    hide Baseline;
    hide Quic.ForQuic;
    hide Quic.DatagramOf;
    hide Quic.PacketStep;
    hide Quic.TableStep;
    hide Quic.AnswerOf;
    hide Quic.PaddedAddresses;
    hide Quic.Datagram.WellFormed;
    FrameDatagram(packet, left, payload, trailer, config);
    TransportIsInBounds(packet);
    DecodedAddressesArePadded(packet, config);
    DatagramInIsWellFormed(packet, config);
    Quic.PacketIsStep(state.quic, packet.Bytes(), Decoded(packet.Bytes()), config.quic);
  }

  // ---------------------------------------------------------------------------------------------
  // A snaplen that shortens

  /** 20 bytes, the first of them that of a QUIC short header, the rest a connection ID of 19 bytes. */
  const SHORT_HEADER: seq<byte> := [0x40, 7, 0, 0, 0, 0, 0, 0, 0, 0, 0, 0, 0, 0, 0, 0, 0, 0, 0, 0]

  /** Keep one byte of short headers, or their connection ID, if that saves enough. */
  function ShortHeaderConfig(minSaved: u32, snaplen: u32, requireDcidMatch: bool): PolicyConfig {
    PolicyConfig(minSaved, snaplen, 65535, TlsOptions(false, [], 0, 0),
                 QuicOptions(true, [443], 1, requireDcidMatch, true))
  }

  /** Nothing is learned from a lone short header; it is cut behind the connection ID it is expected to carry. */
  lemma {:induction false} ShortHeaderVerdict(table: Quic.FlowTable, d: Quic.Datagram, options: QuicOptions)
    requires d.WellFormed() && d.payload == SHORT_HEADER && options.shortHeaderKeepPacketBytes == 1
    ensures Quic.Walk(d.payload, 0) == Quic.Walked([], 0, false)
    ensures var expected := QuicTraces.ExpectedCid(table, d);
            Quic.TableStep(table, d, options).1
            == if expected.UnknownCid? then
                 if options.requireDcidMatch || !options.allowShortHeaderWithoutKnownDcid
                 then Quic.Verdict(Quic.UnknownCidFallback, 0) else Quic.Verdict(Quic.ShortHeaderMatched, 1)
               else if 1 + |expected.bytes| > 20 then Quic.Verdict(Quic.MalformedFallback, 0)
               else if SHORT_HEADER[1..1 + |expected.bytes|] != expected.bytes then
                 Quic.Verdict(Quic.DcidMismatchFallback, 0)
               else Quic.Verdict(Quic.ShortHeaderMatched, 1 + |expected.bytes|)
  {
    hide Quic.LongHeaderAt;
    hide Quic.CanonicalFlow;
    hide Quic.Datagram.WellFormed;
  }

  /** A concrete packet that a larger snaplen shortens: with 50 bytes nothing is cut, because only 7 bytes
      would be saved; with 62 bytes, 43 are kept. */
  lemma {:induction false} SnaplenCanShorten()
    ensures var packet := CapturedPacket(UdpFrame(true, SHORT_HEADER, []), 62, 62, 0);
            && PolicyStep(INITIAL_STATE, packet, ShortHeaderConfig(10, 50, false)).1.outputLen == 50
            && PolicyStep(INITIAL_STATE, packet, ShortHeaderConfig(10, 62, false)).1.outputLen == 43
  {
    hide PolicyStep;
    hide UdpFrame;
    hide DatagramIn;
    hide Quic.TableStep;
    hide Quic.Datagram.WellFormed;
    var packet := CapturedPacket(UdpFrame(true, SHORT_HEADER, []), 62, 62, 0);
    assert packet.Bytes() == packet.data;
    var d := DatagramFrom(true, SHORT_HEADER);
    FrameDecision(INITIAL_STATE, packet, true, SHORT_HEADER, [], ShortHeaderConfig(10, 50, false));
    FrameDecision(INITIAL_STATE, packet, true, SHORT_HEADER, [], ShortHeaderConfig(10, 62, false));
    ShortHeaderVerdict(map[], d, ShortHeaderConfig(10, 50, false).quic);
  }

  // ---------------------------------------------------------------------------------------------
  // A cut that is not final

  /** A Handshake packet without content that announces a connection ID. */
  function Announcement(cid: seq<byte>): (payload: seq<byte>)
    requires |cid| <= 20
    ensures |payload| == 8 + |cid|
  {
    [0xE0, 0, 0, 0, 1, 0, |cid|] + (cid + [0])
  }

  lemma {:induction false} AnnouncementTeaches(cid: seq<byte>)
    requires 0 < |cid| <= 20
    ensures QuicTraces.LastScid(Quic.Walk(Announcement(cid), 0).headers) == Quic.Cid(cid)
  {
    var payload, end := Announcement(cid), 8 + |cid|;
    AnnouncementParses(cid);
    var header := Quic.LongHeaderInfo(end, 2, 1, Quic.Cid([]), Quic.Cid(cid));
    assert Quic.Walk(payload, end) == Quic.Walked([], end, false);
    assert Quic.Walk(payload, 0).headers == [header];
    assert [header][1..] == [];
  }

  lemma {:induction false} AnnouncementParses(cid: seq<byte>)
    requires |cid| <= 20
    ensures Quic.LongHeaderAt(Announcement(cid), 0)
            == Some(Quic.LongHeaderInfo(8 + |cid|, 2, 1, Quic.Cid([]), Quic.Cid(cid)))
  {
    var payload := Announcement(cid);
    assert payload[6..6] == [] && payload[7..7 + |cid|] == cid && payload[7 + |cid|] == 0;
    assert Quic.ReadConnectionId(payload, 5) == Some(Quic.Read(Quic.Cid([]), 6));
    assert Quic.ReadConnectionId(payload, 6) == Some(Quic.Read(Quic.Cid(cid), 7 + |cid|));
    assert Quic.Varint(payload, 7 + |cid|) == Some(Quic.Read(0, 8 + |cid|)) by {
      assert [payload[7 + |cid|] % 0x40] + payload[8 + |cid|..8 + |cid|] == [0];
      assert Quic.BigEndian([0]) == 0;
    }
  }

  /** The frame of the right end that carries it. */
  function AnnouncementPacket(cid: seq<byte>): CapturedPacket
    requires |cid| <= 20
  {
    var frame := UdpFrame(false, Announcement(cid), []);
    CapturedPacket(frame, |frame|, |frame|, 0)
  }

  /** What the right end announces is what a datagram of the left end is expected to carry. */
  lemma {:induction false} AnnouncementIsExpected(
    state: PolicyState, cid: seq<byte>, payload: seq<byte>, config: PolicyConfig)
    requires 0 < |cid| <= 20 && config.quic.enabled && 443 in config.quic.ports
    ensures DatagramFrom(true, payload).WellFormed()
    ensures QuicTraces.ExpectedCid(PolicyStep(state, AnnouncementPacket(cid), config).0.quic,
                                   DatagramFrom(true, payload)) == Quic.Cid(cid)
  {
    hide PolicyStep;
    hide UdpFrame;
    hide DatagramIn;
    hide Announcement;
    hide Quic.TableStep;
    hide Quic.Walk;
    hide Quic.CanonicalFlow;
    hide QuicTraces.ExpectedCid;
    hide QuicTraces.StoredCid;
    hide QuicTraces.LastScid;
    var d, e := DatagramFrom(true, payload), DatagramFrom(false, Announcement(cid));
    var packet := AnnouncementPacket(cid);
    assert packet.Bytes() == packet.data;
    FrameDecision(state, packet, false, Announcement(cid), [], config);
    assert EndOf(true).port != EndOf(false).port;
    AnnouncementTeaches(cid);
    QuicTraces.StoredAfterStep(state.quic, e, QuicTraces.Backward(d), config.quic);
    QuicTraces.ExpectedIsStored(Quic.TableStep(state.quic, e, config.quic).0, d);
  }

  /** The decision on the short header, when a beginning of the bytes behind its first one is expected. */
  lemma {:induction false} ExpectedShortHeader(
    state: PolicyState, packet: CapturedPacket, trailer: seq<byte>, cid: seq<byte>, config: PolicyConfig)
    requires packet.Bytes() == UdpFrame(true, SHORT_HEADER, trailer) && !packet.Malformed()
    requires config.quic.enabled && 443 in config.quic.ports && config.quic.shortHeaderKeepPacketBytes == 1
    requires |cid| <= 19 && SHORT_HEADER[1..1 + |cid|] == cid
    requires DatagramFrom(true, SHORT_HEADER).WellFormed()
    requires QuicTraces.ExpectedCid(state.quic, DatagramFrom(true, SHORT_HEADER)) == Quic.Cid(cid)
    ensures var baseline, decision := Baseline(packet, config), PolicyStep(state, packet, config).1;
            && decision.outputLen
               == ApplyMinimumSavingsThreshold(baseline, Min(baseline, 43 + |cid|), config.minSavedBytesPerPacket)
            && (decision.outputLen < baseline ==> decision.reason == QuicShortHeaderConstricted)
  {
    hide PolicyStep;
    hide UdpFrame;
    hide DatagramIn;
    hide Quic.TableStep;
    hide Quic.Datagram.WellFormed;
    hide QuicTraces.ExpectedCid;
    FrameDecision(state, packet, true, SHORT_HEADER, trailer, config);
    ShortHeaderVerdict(state.quic, DatagramFrom(true, SHORT_HEADER), config.quic);
  }

  /** A record that a QUIC cut leaves and that a later state shortens. The left end's short header, in a frame with
      a trailer of 6 bytes, carries the 19 bytes that the right end has announced, so that only the trailer is
      cut. After the right end has announced the first of those bytes alone, 62 bytes become 44. */
  lemma {:induction false} CutRecordIsCutAgain()
    ensures var config := ShortHeaderConfig(6, 65535, true);
            var packet := CapturedPacket(UdpFrame(true, SHORT_HEADER, [0, 0, 0, 0, 0, 0]), 68, 68, 0);
            var before := PolicyStep(INITIAL_STATE, AnnouncementPacket(SHORT_HEADER[1..]), config).0;
            var (after, decision) := PolicyStep(before, packet, config);
            var later := PolicyStep(after, AnnouncementPacket(SHORT_HEADER[1..2]), config).0;
            && decision.reason == QuicShortHeaderConstricted && decision.outputLen == 62
            && PolicyStep(later, CutRecord(packet, 62), config).1.outputLen == 44
  {
    hide PolicyStep;
    hide UdpFrame;
    hide DatagramFrom;
    hide AnnouncementPacket;
    hide Quic.Datagram.WellFormed;
    hide QuicTraces.ExpectedCid;
    var config := ShortHeaderConfig(6, 65535, true);
    var trailer: seq<byte> := [0, 0, 0, 0, 0, 0];
    var packet := CapturedPacket(UdpFrame(true, SHORT_HEADER, trailer), 68, 68, 0);
    assert packet.Bytes() == packet.data;
    var before := PolicyStep(INITIAL_STATE, AnnouncementPacket(SHORT_HEADER[1..]), config).0;
    AnnouncementIsExpected(INITIAL_STATE, SHORT_HEADER[1..], SHORT_HEADER, config);
    ExpectedShortHeader(before, packet, trailer, SHORT_HEADER[1..], config);
    var after := PolicyStep(before, packet, config).0;
    var later := PolicyStep(after, AnnouncementPacket(SHORT_HEADER[1..2]), config).0;
    AnnouncementIsExpected(after, SHORT_HEADER[1..2], SHORT_HEADER, config);
    WithoutTrailer(true, SHORT_HEADER, trailer);
    var record := CutRecord(packet, 62);
    assert record.Bytes() == record.data;
    ExpectedShortHeader(later, record, [], SHORT_HEADER[1..2], config);
  }
}
