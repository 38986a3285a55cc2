/** Properties of the capture policy over whole traces of packets: what a cut may remove, that flows do
    not influence one another, and how the settings move the cuts. */
module PolicyTraces {
  import opened Bytes
  import opened Config
  import opened PacketDecode
  import opened Policy
  import Tls
  import TlsTraces
  import Quic
  import QuicTraces

  /** The decisions on a trace of packets, from some state of the trackers. */
  function Decisions(state: PolicyState, packets: seq<CapturedPacket>, config: PolicyConfig): (decisions: seq<Decision>)
    ensures |decisions| == |packets|
    decreases |packets|
  {
    if packets == [] then []
    else
      var (next, decision) := PolicyStep(state, packets[0], config);
      [decision] + Decisions(next, packets[1..], config)
  }

  /** The trackers after a trace of packets. */
  function FinalState(state: PolicyState, packets: seq<CapturedPacket>, config: PolicyConfig): PolicyState
    decreases |packets|
  {
    if packets == [] then state
    else FinalState(PolicyStep(state, packets[0], config).0, packets[1..], config)
  }

  ghost predicate ValidState(state: PolicyState) {
    Tls.TableInvariant(state.tls)
  }

  lemma {:induction false} StepKeepsValid(state: PolicyState, packet: CapturedPacket, config: PolicyConfig)
    requires ValidState(state)
    ensures ValidState(PolicyStep(state, packet, config).0)
  {
    hide Decoded;
    hide Tls.PacketStep;
    hide Tls.TableInvariant;
    hide Quic.PacketStep;
    hide TlsAnswer;
    hide QuicAnswer;
    Tls.PacketStepKeepsInvariant(state.tls, packet.Bytes(), Decoded(packet.Bytes()), config.tls);
  }

  // ---------------------------------------------------------------------------------------------
  // What a cut removes

  predicate IsConstricted(reason: DecisionReason) {
    reason == TlsApplicationDataConstricted || reason == QuicShortHeaderConstricted
  }

  /** A packet is shortened below the baseline exactly when the reason says so. Then it shrinks by at
      least the configured minimum, and by at least one byte. The output never exceeds the bytes at
      hand, and the original length is never below what was captured. */
  lemma {:induction false} CutSavesEnough(state: PolicyState, packet: CapturedPacket, config: PolicyConfig)
    ensures var decision, baseline := PolicyStep(state, packet, config).1, Baseline(packet, config);
            && (IsConstricted(decision.reason) <==> decision.outputLen < baseline)
            && (IsConstricted(decision.reason) ==>
                  baseline - decision.outputLen >= Max(1, config.minSavedBytesPerPacket))
            && decision.outputLen <= baseline <= packet.SafeCapturedLen() <= |packet.data|
            && decision.originalLen >= decision.outputLen
            && (!packet.Malformed() ==> decision.originalLen == packet.originalLen)
  {
    hide Decoded;
    hide Tls.PacketStep;
    hide Quic.PacketStep;
  }

  lemma {:induction false} TransportIsInBounds(packet: CapturedPacket)
    requires Decoded(packet.Bytes()).failureReason == NoFailure
    requires Decoded(packet.Bytes()).transportProtocol != NoTransport
    ensures var decoded := Decoded(packet.Bytes());
            && WellFormedDecode(packet.Bytes(), decoded)
            && HasBytes(packet.Bytes(), decoded.transportPayloadOffset, decoded.transportPayloadLength)
            && decoded.transportPayloadOffset + decoded.transportPayloadLength <= IpEnd(packet.Bytes(), decoded)
  {
    hide Decoded;
    DecodedIsWellFormed(packet.Bytes());
  }

  /** A TLS cut keeps all headers and `keptPayload` bytes of the segment, and lies below the end of the
      IP packet, so that the shortened record no longer decodes. */
  lemma {:induction false} TlsCutIsTrackerCut(state: PolicyState, packet: CapturedPacket, config: PolicyConfig)
    requires PolicyStep(state, packet, config).1.reason == TlsApplicationDataConstricted
    ensures var decoded, bytes := Decoded(packet.Bytes()), packet.Bytes();
            && decoded.failureReason == NoFailure
            && decoded.transportProtocol == Tcp
            && WellFormedDecode(bytes, decoded)
            && HasBytes(bytes, decoded.transportPayloadOffset, decoded.transportPayloadLength)
            && var verdict := Tls.TableStep(state.tls, Tls.SegmentOf(bytes, decoded), config.tls).1;
               && verdict.disposition == Tls.AppDataPrefix
               && verdict.keptPayload < decoded.transportPayloadLength
               && PolicyStep(state, packet, config).1.outputLen == decoded.transportPayloadOffset + verdict.keptPayload
               && PolicyStep(state, packet, config).1.outputLen < IpEnd(bytes, decoded)
  {
    hide Decoded;
    hide Tls.TableStep;
    hide Quic.PacketStep;
    hide WellFormedDecode;
    var decoded, bytes := Decoded(packet.Bytes()), packet.Bytes();
    assert AsksTls(decoded, Classify(packet, decoded, config));
    TransportIsInBounds(packet);
    if decoded.transportPayloadLength > 0 {
      CutIsInsidePayload(state.tls, Tls.SegmentOf(bytes, decoded), config.tls);
    }
    TcpEndsWithIp(bytes, decoded);
  }

  lemma {:induction false} TcpEndsWithIp(bytes: seq<byte>, decoded: PacketDecodeResult)
    requires WellFormedDecode(bytes, decoded) && decoded.transportProtocol == Tcp
    ensures decoded.ipVersion != NoIp && HasBytes(bytes, decoded.networkHeaderOffset, 20)
    ensures decoded.transportPayloadOffset + decoded.transportPayloadLength == IpEnd(bytes, decoded)
  {
  }

  lemma {:induction false} CutIsInsidePayload(table: Tls.Table, segment: Tls.Segment, options: TlsOptions)
    ensures Tls.TableStep(table, segment, options).1.disposition == Tls.AppDataPrefix ==>
              Tls.TableStep(table, segment, options).1.keptPayload < |segment.payload|
  {
    hide Tls.RecordsFrom;
    hide Tls.Absorb;
  }

  /** A QUIC cut keeps all headers and `keptPayload` bytes of the datagram. */
  lemma {:induction false} QuicCutIsLearnerCut(state: PolicyState, packet: CapturedPacket, config: PolicyConfig)
    requires PolicyStep(state, packet, config).1.reason == QuicShortHeaderConstricted
    ensures var decoded, bytes := Decoded(packet.Bytes()), packet.Bytes();
            && decoded.failureReason == NoFailure
            && decoded.transportProtocol == Udp
            && HasBytes(bytes, decoded.transportPayloadOffset, decoded.transportPayloadLength)
            && Quic.PaddedAddresses(decoded)
            && var verdict := Quic.TableStep(state.quic, Quic.DatagramOf(bytes, decoded), config.quic).1;
               && verdict.disposition == Quic.ShortHeaderMatched
               && verdict.keptPayload <= decoded.transportPayloadLength
               && PolicyStep(state, packet, config).1.outputLen == decoded.transportPayloadOffset + verdict.keptPayload
  {
    hide Decoded;
    hide Tls.PacketStep;
    hide Quic.TableStep;
    hide WellFormedDecode;
    var decoded := Decoded(packet.Bytes());
    assert AsksQuic(decoded, Classify(packet, decoded, config));
    DecodedAddressesArePadded(packet, config);
    TransportIsInBounds(packet);
  }

  // ---------------------------------------------------------------------------------------------
  // Cut records are fixed points

  /** The record of a packet after a cut, as it is read back from the output. */
  function CutRecord(packet: CapturedPacket, n: u32): CapturedPacket
    requires n <= |packet.data|
  {
    packet.(data := packet.data[..n], capturedLen := n)
  }

  /** A record cut below the end of its IP packet passes through the policy unchanged, in any state of
      the trackers, and leaves that state alone. */
  lemma {:induction false} CutRecordIsFixedPoint(
    state: PolicyState, packet: CapturedPacket, n: u32, config: PolicyConfig)
    requires !packet.Malformed() && n <= Baseline(packet, config)
    requires Decoded(packet.Bytes()).failureReason == NoFailure && Decoded(packet.Bytes()).ipVersion != NoIp
    requires WellFormedDecode(packet.Bytes(), Decoded(packet.Bytes()))
             && n < IpEnd(packet.Bytes(), Decoded(packet.Bytes()))
    ensures var (next, decision) := PolicyStep(state, CutRecord(packet, n), config);
            && next == state
            && decision.outputLen == n
            && decision.originalLen == packet.originalLen
            && decision.reason == ParseError
  {
    hide Decoded;
    hide WellFormedDecode;
    hide Tls.PacketStep;
    hide Quic.PacketStep;
    var cut := CutRecord(packet, n);
    assert cut.Bytes() == packet.Bytes()[..n];
    CutDecodesIffIpPacketKept(packet.Bytes(), n);
  }

  /** In particular, what a TLS cut leaves is never cut again, nor does it disturb the trackers. */
  lemma {:induction false} TlsCutIsFinal(
    state: PolicyState, packet: CapturedPacket, config: PolicyConfig, later: PolicyState)
    requires PolicyStep(state, packet, config).1.reason == TlsApplicationDataConstricted
    ensures var n := PolicyStep(state, packet, config).1.outputLen;
            && n <= |packet.data|
            && PolicyStep(later, CutRecord(packet, n), config).0 == later
            && PolicyStep(later, CutRecord(packet, n), config).1.outputLen == n
  {
    hide PolicyStep;
    TlsCutIsTrackerCut(state, packet, config);
    CutSavesEnough(state, packet, config);
    ConstrictedIsSane(state, packet, config);
    CutRecordIsFixedPoint(later, packet, PolicyStep(state, packet, config).1.outputLen, config);
  }

  lemma {:induction false} ConstrictedIsSane(state: PolicyState, packet: CapturedPacket, config: PolicyConfig)
    requires PolicyStep(state, packet, config).1.reason == TlsApplicationDataConstricted
    ensures !packet.Malformed()
  {
    hide Decoded;
    hide Tls.PacketStep;
    hide Quic.PacketStep;
  }

  /** The length that a tracker proposes for a packet, if it proposes one. */
  function TrackerCut(state: PolicyState, packet: CapturedPacket, config: PolicyConfig): Option<u32> {
    var decoded := Decoded(packet.Bytes());
    var reason := Classify(packet, decoded, config);
    DecodedAddressesArePadded(packet, config);
    if AsksTls(decoded, reason) then
      var answer := Tls.PacketStep(state.tls, packet.Bytes(), decoded, config.tls).1;
      if answer.disposition == Tls.AppDataPrefix then Some(answer.outputLen) else None
    else if AsksQuic(decoded, reason) then
      var answer := Quic.PacketStep(state.quic, packet.Bytes(), decoded, config.quic).1;
      if answer.disposition == Quic.ShortHeaderMatched then Some(answer.outputLen) else None
    else None
  }

  /** The output is the baseline, or the proposed cut if that saves enough. */
  lemma {:induction false} OutputFollowsCut(state: PolicyState, packet: CapturedPacket, config: PolicyConfig)
    ensures var cut, baseline := TrackerCut(state, packet, config), Baseline(packet, config);
            PolicyStep(state, packet, config).1.outputLen
            == if cut.Some?
               then ApplyMinimumSavingsThreshold(baseline, Min(baseline, cut.value), config.minSavedBytesPerPacket)
               else baseline
  {
    hide Decoded;
    hide Tls.PacketStep;
    hide Quic.PacketStep;
    hide ApplyMinimumSavingsThreshold;
    hide Baseline;
    hide Classify;
  }

  /** A cut record that still holds the whole IP packet is decoded and judged like the packet it was cut from. */
  lemma {:induction false} WholeIpRecord(state: PolicyState, packet: CapturedPacket, n: u32, config: PolicyConfig)
    requires !packet.Malformed() && n <= Baseline(packet, config)
    requires var decoded := Decoded(packet.Bytes());
             && decoded.failureReason == NoFailure && decoded.ipVersion != NoIp && decoded.transportProtocol == Udp
             && WellFormedDecode(packet.Bytes(), decoded) && n == IpEnd(packet.Bytes(), decoded)
    requires AsksQuic(Decoded(packet.Bytes()), Classify(packet, Decoded(packet.Bytes()), config))
    ensures Quic.PaddedAddresses(Decoded(packet.Bytes()))
    ensures var (table, answer) := Quic.PacketStep(state.quic, packet.Bytes(), Decoded(packet.Bytes()), config.quic);
            && PolicyStep(state, CutRecord(packet, n), config).0 == state.(quic := table)
            && PolicyStep(state, CutRecord(packet, n), config).1.outputLen == QuicAnswer(answer, n, config).0
  {
    hide Decoded;
    hide Tls.PacketStep;
    hide Quic.TableStep;
    hide QuicAnswer;
    hide IpEnd;
    var cut, bytes := CutRecord(packet, n), packet.Bytes();
    var decoded := Decoded(bytes);
    assert cut.Bytes() == bytes[..n];
    DecodedAddressesArePadded(packet, config);
    KeptIpPacketDecodes(bytes, n);
    TransportIsInBounds(packet);
    var start, end := decoded.transportPayloadOffset, decoded.transportPayloadOffset + decoded.transportPayloadLength;
    CutSlice(bytes, n, start, end);
    assert Quic.DatagramOf(bytes[..n], decoded) == Quic.DatagramOf(bytes, decoded);
  }

  lemma {:induction false} CutSlice(bytes: seq<byte>, n: nat, start: nat, end: nat)
    requires start <= end <= n <= |bytes|
    ensures bytes[..n][start..end] == bytes[start..end]
  {
  }

  /** What a QUIC cut leaves. It never reaches behind the IP packet. If it cuts into the IP packet, the record
      passes unchanged in any later state, like a TLS cut. If it only removes what follows the IP packet, the
      record still decodes, and is judged anew: in a later state it is left alone exactly if the learner
      then proposes nothing shorter that saves enough. Either way it is a fixed point in the state that
      the cut itself leaves. */
  lemma {:induction false} QuicCutIsFinal(
    state: PolicyState, packet: CapturedPacket, config: PolicyConfig, later: PolicyState)
    requires PolicyStep(state, packet, config).1.reason == QuicShortHeaderConstricted
    ensures var (next, decision) := PolicyStep(state, packet, config);
            var n := decision.outputLen;
            var decoded, proposed := Decoded(packet.Bytes()), TrackerCut(later, packet, config);
            && n <= |packet.data| && WellFormedDecode(packet.Bytes(), decoded) && n <= IpEnd(packet.Bytes(), decoded)
            && (n < IpEnd(packet.Bytes(), decoded) ==> PolicyStep(later, CutRecord(packet, n), config).0 == later)
            && (PolicyStep(later, CutRecord(packet, n), config).1.outputLen == n
                <==> n < IpEnd(packet.Bytes(), decoded)
                     || !(proposed.Some? && proposed.value < n && n - proposed.value >= config.minSavedBytesPerPacket))
            && PolicyStep(next, CutRecord(packet, n), config).0 == next
            && PolicyStep(next, CutRecord(packet, n), config).1.outputLen == n
  {
    hide Decoded;
    hide IpEnd;
    hide Tls.PacketStep;
    hide Quic.TableStep;
    hide WellFormedDecode;
    hide PolicyStep;
    hide Classify;
    hide Baseline;
    hide QuicAnswer;
    CutSavesEnough(state, packet, config);
    QuicCutIsLearnerCut(state, packet, config);
    QuicConstrictedFacts(state, packet, config);
    var (next, decision) := PolicyStep(state, packet, config);
    var n, bytes := decision.outputLen, packet.Bytes();
    var decoded := Decoded(bytes);
    TransportIsInBounds(packet);
    IpHeaderIsThere(bytes, decoded);
    if n < IpEnd(bytes, decoded) {
      CutRecordIsFixedPoint(later, packet, n, config);
      CutRecordIsFixedPoint(next, packet, n, config);
    } else {
      WholeIpRecord(later, packet, n, config);
      WholeIpRecord(next, packet, n, config);
      QuicTraces.StepTwice(state.quic, Quic.DatagramOf(bytes, decoded), config.quic);
      AnswerAt(Quic.PacketStep(later.quic, bytes, decoded, config.quic).1, n, config);
      AnswerAt(Quic.PacketStep(next.quic, bytes, decoded, config.quic).1, n, config);
    }
  }

  lemma {:induction false} IpHeaderIsThere(bytes: seq<byte>, decoded: PacketDecodeResult)
    requires WellFormedDecode(bytes, decoded)
    ensures decoded.ipVersion != NoIp ==> HasBytes(bytes, decoded.networkHeaderOffset, 20)
  {
  }

  /** How an answer of the learner moves a baseline. */
  lemma {:induction false} AnswerAt(answer: Quic.QuicConstrictResult, n: u32, config: PolicyConfig)
    ensures QuicAnswer(answer, n, config).0 == n
            <==> !(answer.disposition == Quic.ShortHeaderMatched && answer.outputLen < n
                   && n - answer.outputLen >= config.minSavedBytesPerPacket)
  {
  }

  /** A packet that QUIC constricts is sane, and was given to the learner, whose answer is the output. */
  lemma {:induction false} QuicConstrictedFacts(state: PolicyState, packet: CapturedPacket, config: PolicyConfig)
    requires PolicyStep(state, packet, config).1.reason == QuicShortHeaderConstricted
    ensures !packet.Malformed()
    ensures var decoded := Decoded(packet.Bytes());
            && decoded.ipVersion != NoIp
            && AsksQuic(decoded, Classify(packet, decoded, config))
            && !AsksTls(decoded, Classify(packet, decoded, config))
            && Quic.PaddedAddresses(decoded)
            && var (table, answer) := Quic.PacketStep(state.quic, packet.Bytes(), decoded, config.quic);
               && PolicyStep(state, packet, config).0 == state.(quic := table)
               && answer.disposition == Quic.ShortHeaderMatched
               && PolicyStep(state, packet, config).1.outputLen == answer.outputLen
  {
    hide Decoded;
    hide Tls.PacketStep;
    hide Quic.PacketStep;
    DecodedAddressesArePadded(packet, config);
    TransportIsInBounds(packet);
  }

  // ---------------------------------------------------------------------------------------------
  // Flows do not influence one another

  /** A flow: the protocol and its two ends, in no order. The length of an end's address tells the IP
      version. */
  datatype Flow = Flow(protocol: TransportProtocol, ends: set<Quic.Endpoint>)

  /** The flow of a packet that the policy can look into, down to the transport layer. */
  function FlowOf(packet: CapturedPacket): Option<Flow> {
    var decoded := Decoded(packet.Bytes());
    if packet.Malformed() || decoded.failureReason != NoFailure || decoded.transportProtocol == NoTransport then None
    else
      Some(Flow(decoded.transportProtocol,
                {Quic.Endpoint(decoded.srcAddress, decoded.addressLength, decoded.srcPort),
                 Quic.Endpoint(decoded.dstAddress, decoded.addressLength, decoded.dstPort)}))
  }

  function EndsOfDirection(key: Tls.DirectionKey): set<Quic.Endpoint> {
    {Quic.Endpoint(key.srcIp, key.addressLength, key.srcPort), Quic.Endpoint(key.dstIp, key.addressLength, key.dstPort)}
  }

  function EndsOfFlow(key: Quic.FlowKey): set<Quic.Endpoint> {
    {key.endpointA, key.endpointB}
  }

  /** Two states agree on everything the trackers know about a flow. */
  ghost predicate SameForFlow(a: PolicyState, b: PolicyState, flow: Flow) {
    && (flow.protocol == Tcp ==>
          forall key {:trigger EndsOfDirection(key)} :: EndsOfDirection(key) == flow.ends ==>
            TlsTraces.SameForFlow(a.tls, b.tls, key))
    && (flow.protocol == Udp ==>
          forall key {:trigger EndsOfFlow(key)} :: EndsOfFlow(key) == flow.ends ==>
            Quic.EntryOf(a.quic, key) == Quic.EntryOf(b.quic, key))
  }

  lemma {:induction false} SamePair<T>(a: T, b: T, c: T, d: T)
    ensures {a, b} == {c, d} <==> (a == c && b == d) || (a == d && b == c)
  {
    if {a, b} == {c, d} {
      assert a in {c, d} && b in {c, d} && c in {a, b} && d in {a, b};
    }
  }

  /** The directions of a flow are a direction and its reverse. */
  lemma {:induction false} DirectionsOfEnds(segmentKey: Tls.DirectionKey, key: Tls.DirectionKey)
    ensures EndsOfDirection(segmentKey) == EndsOfDirection(key) <==> segmentKey == key || segmentKey == key.Reverse()
  {
    SamePair(
      Quic.Endpoint(segmentKey.srcIp, segmentKey.addressLength, segmentKey.srcPort),
      Quic.Endpoint(segmentKey.dstIp, segmentKey.addressLength, segmentKey.dstPort),
      Quic.Endpoint(key.srcIp, key.addressLength, key.srcPort),
      Quic.Endpoint(key.dstIp, key.addressLength, key.dstPort));
  }

  /** A TLS packet step is a table step, or only the reset that its flags ask for. */
  lemma {:induction false} TlsPacketIsLocal(
    a: Tls.Table, b: Tls.Table, bytes: seq<byte>, decoded: PacketDecodeResult, key: Tls.DirectionKey,
    options: TlsOptions)
    ensures Tls.MakeDirectionKey(decoded) == key || Tls.MakeDirectionKey(decoded) == key.Reverse() ==>
              TlsTraces.SameForFlow(a, b, key) ==>
                && Tls.PacketStep(a, bytes, decoded, options).1 == Tls.PacketStep(b, bytes, decoded, options).1
                && TlsTraces.SameForFlow(Tls.PacketStep(a, bytes, decoded, options).0,
                                         Tls.PacketStep(b, bytes, decoded, options).0, key)
    ensures !(Tls.MakeDirectionKey(decoded) == key || Tls.MakeDirectionKey(decoded) == key.Reverse()) ==>
              TlsTraces.SameForFlow(Tls.PacketStep(a, bytes, decoded, options).0, a, key)
  {
    hide Tls.DirectionStep;
    var empty := Tls.Segment(Tls.MakeDirectionKey(decoded), decoded.tcpSeq, decoded.tcpFlags, []);
    TlsTraces.StepIsLocal(a, b, empty, key, options);
    if HasBytes(bytes, decoded.transportPayloadOffset, decoded.transportPayloadLength) {
      TlsTraces.StepIsLocal(a, b, Tls.SegmentOf(bytes, decoded), key, options);
    }
  }

  lemma {:induction false} QuicPacketIsLocal(
    a: Quic.FlowTable, b: Quic.FlowTable, bytes: seq<byte>, decoded: PacketDecodeResult, key: Quic.FlowKey,
    options: QuicOptions)
    requires Quic.PaddedAddresses(decoded)
    requires HasBytes(bytes, decoded.transportPayloadOffset, decoded.transportPayloadLength)
    ensures Quic.DatagramOf(bytes, decoded).Key() == key && Quic.EntryOf(a, key) == Quic.EntryOf(b, key) ==>
              && Quic.PacketStep(a, bytes, decoded, options).1 == Quic.PacketStep(b, bytes, decoded, options).1
              && Quic.EntryOf(Quic.PacketStep(a, bytes, decoded, options).0, key)
                 == Quic.EntryOf(Quic.PacketStep(b, bytes, decoded, options).0, key)
    ensures Quic.DatagramOf(bytes, decoded).Key() != key ==>
              Quic.EntryOf(Quic.PacketStep(a, bytes, decoded, options).0, key) == Quic.EntryOf(a, key)
  {
    hide Quic.TableStep;
    hide Quic.CanonicalFlow;
    hide Quic.EntryOf;
    hide ToU32;
    hide PortConfigured;
    hide Quic.PaddedAddresses;
    hide Quic.Datagram.WellFormed;
    hide Quic.PacketStep;
    Quic.DatagramIsWellFormed(bytes, decoded);
    QuicTraces.StepIsLocal(a, b, Quic.DatagramOf(bytes, decoded), key, options);
    Quic.PacketIsStep(a, bytes, decoded, options);
    Quic.PacketIsStep(b, bytes, decoded, options);
  }

  /** The key of a datagram holds its two ends. */
  lemma {:induction false} KeyHoldsEnds(d: Quic.Datagram)
    requires d.WellFormed()
    ensures EndsOfFlow(d.Key()) == {d.source, d.destination}
  {
    hide Quic.CompareEndpoints;
  }

  /** A packet of the flow is judged by the flow's own entries. */
  lemma {:induction false} OwnPacket(
    a: PolicyState, b: PolicyState, packet: CapturedPacket, flow: Flow, config: PolicyConfig)
    requires FlowOf(packet) == Some(flow) && SameForFlow(a, b, flow)
    ensures PolicyStep(a, packet, config).1 == PolicyStep(b, packet, config).1
    ensures SameForFlow(PolicyStep(a, packet, config).0, PolicyStep(b, packet, config).0, flow)
  {
    hide Decoded;
    hide Tls.PacketStep;
    hide Quic.PacketStep;
    hide TlsTraces.SameForFlow;
    hide WellFormedDecode;
    hide TlsAnswer;
    hide QuicAnswer;
    var bytes, decoded := packet.Bytes(), Decoded(packet.Bytes());
    var reason := Classify(packet, decoded, config);
    if AsksTls(decoded, reason) {
      var own := Tls.MakeDirectionKey(decoded);
      assert EndsOfDirection(own) == flow.ends;
      forall key {:trigger EndsOfDirection(key)} | EndsOfDirection(key) == flow.ends
        ensures TlsTraces.SameForFlow(PolicyStep(a, packet, config).0.tls, PolicyStep(b, packet, config).0.tls, key)
        ensures PolicyStep(a, packet, config).1 == PolicyStep(b, packet, config).1
      {
        DirectionsOfEnds(own, key);
        TlsPacketIsLocal(a.tls, b.tls, bytes, decoded, key, config.tls);
      }
    } else if AsksQuic(decoded, reason) {
      DecodedAddressesArePadded(packet, config);
      TransportIsInBounds(packet);
      var d := Quic.DatagramOf(bytes, decoded);
      KeyHoldsEnds(d);
      QuicPacketIsLocal(a.quic, b.quic, bytes, decoded, d.Key(), config.quic);
      forall key {:trigger EndsOfFlow(key)} | EndsOfFlow(key) == flow.ends
        ensures Quic.EntryOf(PolicyStep(a, packet, config).0.quic, key)
                == Quic.EntryOf(PolicyStep(b, packet, config).0.quic, key)
      {
        QuicPacketIsLocal(a.quic, b.quic, bytes, decoded, key, config.quic);
        QuicPacketIsLocal(b.quic, b.quic, bytes, decoded, key, config.quic);
      }
    }
  }

  /** A packet of another flow, or of none, leaves the flow's entries alone. */
  lemma {:induction false} OtherPacket(a: PolicyState, packet: CapturedPacket, flow: Flow, config: PolicyConfig)
    requires FlowOf(packet) != Some(flow)
    ensures SameForFlow(PolicyStep(a, packet, config).0, a, flow)
  {
    hide Decoded;
    hide Tls.PacketStep;
    hide Quic.PacketStep;
    hide WellFormedDecode;
    hide TlsAnswer;
    hide QuicAnswer;
    var bytes, decoded := packet.Bytes(), Decoded(packet.Bytes());
    var reason := Classify(packet, decoded, config);
    var next := PolicyStep(a, packet, config).0;
    if AsksTls(decoded, reason) && flow.protocol == Tcp {
      forall key {:trigger EndsOfDirection(key)} | EndsOfDirection(key) == flow.ends
        ensures TlsTraces.SameForFlow(next.tls, a.tls, key)
      {
        DirectionsOfEnds(Tls.MakeDirectionKey(decoded), key);
        TlsPacketIsLocal(a.tls, a.tls, bytes, decoded, key, config.tls);
      }
    } else if AsksQuic(decoded, reason) && flow.protocol == Udp {
      DecodedAddressesArePadded(packet, config);
      TransportIsInBounds(packet);
      KeyHoldsEnds(Quic.DatagramOf(bytes, decoded));
      forall key {:trigger EndsOfFlow(key)} | EndsOfFlow(key) == flow.ends
        ensures Quic.EntryOf(next.quic, key) == Quic.EntryOf(a.quic, key)
      {
        QuicPacketIsLocal(a.quic, a.quic, bytes, decoded, key, config.quic);
      }
    }
  }

  /** The packets of one flow, in order. */
  function Filter(packets: seq<CapturedPacket>, flow: Flow): seq<CapturedPacket> {
    if packets == [] then []
    else (if FlowOf(packets[0]) == Some(flow) then [packets[0]] else []) + Filter(packets[1..], flow)
  }

  /** The decisions on the packets of one flow, in order. */
  function Select(packets: seq<CapturedPacket>, decisions: seq<Decision>, flow: Flow): seq<Decision>
    requires |packets| == |decisions|
  {
    if packets == [] then []
    else
      (if FlowOf(packets[0]) == Some(flow) then [decisions[0]] else [])
      + Select(packets[1..], decisions[1..], flow)
  }

  lemma {:induction false} NonInterferenceFrom(
    a: PolicyState, b: PolicyState, packets: seq<CapturedPacket>, flow: Flow, config: PolicyConfig)
    requires SameForFlow(a, b, flow)
    ensures Select(packets, Decisions(a, packets, config), flow) == Decisions(b, Filter(packets, flow), config)
    decreases |packets|
  {
    hide FlowOf;
    hide SameForFlow;
    hide PolicyStep;
    if packets != [] {
      var packet, rest := packets[0], packets[1..];
      var next := PolicyStep(a, packet, config).0;
      assert Decisions(a, packets, config)[1..] == Decisions(next, rest, config);
      if FlowOf(packet) == Some(flow) {
        OwnPacket(a, b, packet, flow, config);
        NonInterferenceFrom(next, PolicyStep(b, packet, config).0, rest, flow, config);
        assert Filter(packets, flow)[1..] == Filter(rest, flow);
      } else {
        OtherPacket(a, packet, flow, config);
        SameIsTransitive(next, a, b, flow);
        NonInterferenceFrom(next, b, rest, flow, config);
        assert Filter(packets, flow) == Filter(rest, flow);
      }
    }
  }

  lemma {:induction false} SameIsTransitive(a: PolicyState, b: PolicyState, c: PolicyState, flow: Flow)
    requires SameForFlow(a, b, flow) && SameForFlow(b, c, flow)
    ensures SameForFlow(a, c, flow)
  {
    hide TlsTraces.SameForFlow;
    forall key {:trigger EndsOfDirection(key)} | flow.protocol == Tcp && EndsOfDirection(key) == flow.ends
      ensures TlsTraces.SameForFlow(a.tls, c.tls, key)
    {
      TlsTraces.SameForFlowTransitive(a.tls, b.tls, c.tls, key);
    }
  }

  /** In any interleaving of flows, the decisions on one flow are those the policy makes on that flow alone. */
  lemma {:induction false} NonInterference(packets: seq<CapturedPacket>, flow: Flow, config: PolicyConfig)
    ensures Select(packets, Decisions(INITIAL_STATE, packets, config), flow)
            == Decisions(INITIAL_STATE, Filter(packets, flow), config)
  {
    NonInterferenceFrom(INITIAL_STATE, INITIAL_STATE, packets, flow, config);
  }

  // ---------------------------------------------------------------------------------------------
  // Settings

  /** The configurations differ at most in keep settings and in the savings threshold, and `more` keeps
      at least as much and cuts only for at least as much. */
  predicate KeepsMore(more: PolicyConfig, less: PolicyConfig) {
    && less == more.(minSavedBytesPerPacket := less.minSavedBytesPerPacket, tls := less.tls, quic := less.quic)
    && less.minSavedBytesPerPacket <= more.minSavedBytesPerPacket
    && less.tls == more.tls.(appDataKeepRecordBytes := less.tls.appDataKeepRecordBytes,
                             appDataContinuationKeepBytes := less.tls.appDataContinuationKeepBytes)
    && TlsTraces.KeepsMore(more.tls, less.tls)
    && QuicTraces.KeepsMore(more.quic, less.quic)
  }

  lemma {:induction false} ThresholdMonotone(baseline: u32, more: u32, less: u32, minMore: u32, minLess: u32)
    requires less <= more && minLess <= minMore
    ensures ApplyMinimumSavingsThreshold(baseline, Min(baseline, less), minLess)
            <= ApplyMinimumSavingsThreshold(baseline, Min(baseline, more), minMore)
  {
  }

  lemma {:induction false} ThresholdKeepsAtMost(baseline: u32, candidate: u32, minSaved: u32)
    ensures ApplyMinimumSavingsThreshold(baseline, Min(baseline, candidate), minSaved) <= baseline
  {
  }

  lemma {:induction false} TlsStepMonotone(
    table: Tls.Table, bytes: seq<byte>, decoded: PacketDecodeResult, baseline: u32, more: PolicyConfig,
    less: PolicyConfig)
    requires KeepsMore(more, less) && |bytes| < 0x1_0000_0000 && baseline <= |bytes|
    ensures Tls.PacketStep(table, bytes, decoded, more.tls).0 == Tls.PacketStep(table, bytes, decoded, less.tls).0
    ensures TlsAnswer(Tls.PacketStep(table, bytes, decoded, less.tls).1, baseline, less).0
            <= TlsAnswer(Tls.PacketStep(table, bytes, decoded, more.tls).1, baseline, more).0
  {
    hide Tls.TableStep;
    hide ApplyMinimumSavingsThreshold;
    var a, b := Tls.PacketStep(table, bytes, decoded, more.tls).1, Tls.PacketStep(table, bytes, decoded, less.tls).1;
    if b.outputLen <= a.outputLen {
      ThresholdMonotone(baseline, a.outputLen, b.outputLen, more.minSavedBytesPerPacket, less.minSavedBytesPerPacket);
    }
    ThresholdKeepsAtMost(baseline, b.outputLen, less.minSavedBytesPerPacket);
    if HasBytes(bytes, decoded.transportPayloadOffset, decoded.transportPayloadLength)
       && decoded.transportPayloadLength > 0 {
      var segment := Tls.SegmentOf(bytes, decoded);
      TlsTraces.KeepMonotone(table, segment, more.tls, less.tls);
      CutIsInsidePayload(table, segment, more.tls);
      CutIsInsidePayload(table, segment, less.tls);
    }
  }

  lemma {:induction false} QuicStepMonotone(
    table: Quic.FlowTable, bytes: seq<byte>, decoded: PacketDecodeResult, baseline: u32, more: PolicyConfig,
    less: PolicyConfig)
    requires KeepsMore(more, less) && Quic.PaddedAddresses(decoded) && |bytes| < 0x1_0000_0000 && baseline <= |bytes|
    ensures Quic.PacketStep(table, bytes, decoded, more.quic).0 == Quic.PacketStep(table, bytes, decoded, less.quic).0
    ensures QuicAnswer(Quic.PacketStep(table, bytes, decoded, less.quic).1, baseline, less).0
            <= QuicAnswer(Quic.PacketStep(table, bytes, decoded, more.quic).1, baseline, more).0
  {
    hide Quic.TableStep;
    hide ApplyMinimumSavingsThreshold;
    var a := Quic.PacketStep(table, bytes, decoded, more.quic).1;
    var b := Quic.PacketStep(table, bytes, decoded, less.quic).1;
    if b.outputLen <= a.outputLen {
      ThresholdMonotone(baseline, a.outputLen, b.outputLen, more.minSavedBytesPerPacket, less.minSavedBytesPerPacket);
    }
    if HasBytes(bytes, decoded.transportPayloadOffset, decoded.transportPayloadLength) {
      QuicTraces.KeepMonotone(table, Quic.DatagramOf(bytes, decoded), more.quic, less.quic);
    }
  }

  lemma {:induction false} StepMonotone(
    state: PolicyState, packet: CapturedPacket, more: PolicyConfig, less: PolicyConfig)
    requires KeepsMore(more, less)
    ensures PolicyStep(state, packet, more).0 == PolicyStep(state, packet, less).0
    ensures PolicyStep(state, packet, less).1.outputLen <= PolicyStep(state, packet, more).1.outputLen
  {
    hide Decoded;
    hide Tls.PacketStep;
    hide Quic.PacketStep;
    hide TlsAnswer;
    hide QuicAnswer;
    var bytes, decoded := packet.Bytes(), Decoded(packet.Bytes());
    var baseline := Baseline(packet, more);
    assert Classify(packet, decoded, more) == Classify(packet, decoded, less);
    TlsStepMonotone(state.tls, bytes, decoded, baseline, more, less);
    if AsksQuic(decoded, Classify(packet, decoded, more)) {
      DecodedAddressesArePadded(packet, more);
      QuicStepMonotone(state.quic, bytes, decoded, baseline, more, less);
    }
  }

  /** Over any trace, keep settings and the savings threshold never reach the trackers' state, and
      raising any of them never shortens an output packet. */
  lemma {:induction false} SettingsMonotone(
    state: PolicyState, packets: seq<CapturedPacket>, more: PolicyConfig, less: PolicyConfig)
    requires KeepsMore(more, less)
    ensures FinalState(state, packets, more) == FinalState(state, packets, less)
    ensures forall i :: 0 <= i < |packets| ==>
              Decisions(state, packets, less)[i].outputLen <= Decisions(state, packets, more)[i].outputLen
    decreases |packets|
  {
    hide PolicyStep;
    if packets != [] {
      StepMonotone(state, packets[0], more, less);
      SettingsMonotone(PolicyStep(state, packets[0], more).0, packets[1..], more, less);
    }
  }

  lemma {:induction false} ThresholdMonotoneIff(candidate: u32, low: u32, high: u32, minSaved: u32)
    requires low <= high
    ensures ApplyMinimumSavingsThreshold(low, Min(low, candidate), minSaved)
            <= ApplyMinimumSavingsThreshold(high, Min(high, candidate), minSaved)
            <==> !(candidate < low < candidate + minSaved <= high)
  {
  }

  /** Raising the snaplen, by contrast, can shorten a packet, because it can lift the savings of a cut over
      the threshold. It does so exactly when the old baseline was above the proposed cut by less than the
      threshold and the new one is above it by at least the threshold. */
  lemma {:induction false} SnaplenMonotoneIff(
    state: PolicyState, packet: CapturedPacket, config: PolicyConfig, snaplen: u32)
    requires config.defaultSnaplen <= snaplen
    ensures var higher := config.(defaultSnaplen := snaplen);
            var low, high, cut := Baseline(packet, config), Baseline(packet, higher), TrackerCut(state, packet, config);
            && PolicyStep(state, packet, higher).0 == PolicyStep(state, packet, config).0
            && (PolicyStep(state, packet, config).1.outputLen <= PolicyStep(state, packet, higher).1.outputLen
                <==> !(cut.Some? && cut.value < low < cut.value + config.minSavedBytesPerPacket <= high))
  {
    hide Decoded;
    hide Tls.PacketStep;
    hide Quic.PacketStep;
    hide ApplyMinimumSavingsThreshold;
    var higher := config.(defaultSnaplen := snaplen);
    assert Classify(packet, Decoded(packet.Bytes()), higher) == Classify(packet, Decoded(packet.Bytes()), config);
    OutputFollowsCut(state, packet, config);
    OutputFollowsCut(state, packet, higher);
    if TrackerCut(state, packet, config).Some? {
      ThresholdMonotoneIff(TrackerCut(state, packet, config).value, Baseline(packet, config), Baseline(packet, higher),
                           config.minSavedBytesPerPacket);
    }
  }
}
