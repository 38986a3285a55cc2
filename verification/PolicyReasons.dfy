/** The decision on every packet, from what the packet is and what the trackers answer: which packets a tracker is asked
    about, what it is asked, and the reason and length that follow from each answer. */
module PolicyReasons {
  import opened Bytes
  import opened Config
  import opened PacketDecode
  import opened PacketFrames
  import opened PacketOutcomes
  import opened Policy
  import opened PolicyTraces
  import opened PolicyHistories
  import Tls
  import Quic

  /** What a packet needs: no tracker, for a reason of its own; or a tracker,
  about a payload that stands at `offset`. */
  datatype Question =
    | NoQuestion(reason: DecisionReason)
    | AskTls(segment: Tls.Segment, offset: nat)
    | AskQuic(datagram: Quic.Datagram, offset: nat)

  /** SYN and RST are the bits of value 2 and 4. */
  predicate HasSynOrRst(flags: byte) {
    flags % 4 >= 2 || flags % 8 >= 4
  }

  function TlsQuestion(ip: Network, t: Transport, offset: nat, options: TlsOptions): Question
    requires ip.Valid() && t.TcpSegment?
  {
    if !options.enabled || (t.srcPort !in options.ports && t.dstPort !in options.ports) then NoQuestion(TcpPacket)
    else if t.payload == [] && !HasSynOrRst(t.flags) then NoQuestion(TlsCandidate)
    else
      var key := Tls.DirectionKey(Padded(ip.src), Padded(ip.dst), ip.AddressLength(), t.srcPort, t.dstPort);
      AskTls(Tls.Segment(key, t.seqNumber, t.flags, t.payload), offset)
  }

  function QuicQuestion(ip: Network, t: Transport, offset: nat, options: QuicOptions): Question
    requires ip.Valid() && t.UdpDatagram?
  {
    if !options.enabled || (t.srcPort !in options.ports && t.dstPort !in options.ports) then NoQuestion(UdpPacket)
    else if t.payload == [] then NoQuestion(QuicCandidate)
    else
      var source := Quic.Endpoint(Padded(ip.src), ip.AddressLength(), t.srcPort);
      var destination := Quic.Endpoint(Padded(ip.dst), ip.AddressLength(), t.dstPort);
      AskQuic(Quic.Datagram(if ip.Ip4? then Ipv4 else Ipv6, source, destination, t.payload), offset)
  }

  function QuestionOf(packet: CapturedPacket, form: Form, config: PolicyConfig): Question
    requires form.Valid()
  {
    if packet.capturedLen > |packet.data| || packet.originalLen < packet.capturedLen then NoQuestion(ParseError)
    else
      match form
      case NoIpPacket(_, _, _, _) => NoQuestion(NonIp)
      case IpPacket(_, _, ip, protocol, body, _) =>
        NoQuestion(if IpReason(ip, protocol, body) == NoFailure then Default else ParseError)
      case Whole(_, tags, ip, t, _) =>
        var offset := 14 + 4 * |tags| + ip.HeaderLength() + t.HeaderLength();
        if t.TcpSegment? then TlsQuestion(ip, t, offset, config.tls) else QuicQuestion(ip, t, offset, config.quic)
      case _ => NoQuestion(ParseError)
  }

  /** The least of what is there, what is claimed and what the settings allow. */
  function Limit(packet: CapturedPacket, config: PolicyConfig): nat {
    Least([|packet.data|, packet.capturedLen, packet.originalLen, config.defaultSnaplen, config.maxCaptureLen])
  }

  function Least(numbers: seq<nat>): (least: nat)
    requires numbers != []
    ensures least in numbers && forall i :: 0 <= i < |numbers| ==> least <= numbers[i]
  {
    if |numbers| == 1 then numbers[0]
    else
      var others := Least(numbers[1..]);
      if numbers[0] <= others then numbers[0] else others
  }

  /** A cut is made if it saves at least one byte, and at least the configured minimum. */
  predicate Saves(cut: nat, limit: nat, config: PolicyConfig) {
    cut < limit && cut + config.minSavedBytesPerPacket <= limit
  }

  function LengthAndReason(cut: nat, limit: nat, ifCut: DecisionReason, ifNot: DecisionReason, config: PolicyConfig)
    : (nat, DecisionReason) {
    if Saves(cut, limit, config) then (cut, ifCut) else (limit, ifNot)
  }

  function AfterTls(verdict: Tls.Verdict, offset: nat, limit: nat, config: PolicyConfig): (nat, DecisionReason) {
    match verdict.disposition
    case AppDataPrefix =>
      LengthAndReason(offset + verdict.keptPayload, limit, TlsApplicationDataConstricted, TlsCandidate, config)
    case NoApplicationData => (limit, TlsCandidate)
    case NoRecord => (limit, TlsNoRecordFallback)
    case Malformed => (limit, TlsMalformedFallback)
    case UncertainFallback => (limit, TlsMalformedFallback)
  }

  function AfterQuic(verdict: Quic.Verdict, offset: nat, limit: nat, config: PolicyConfig): (nat, DecisionReason) {
    match verdict.disposition
    case ShortHeaderMatched =>
      LengthAndReason(offset + verdict.keptPayload, limit, QuicShortHeaderConstricted, QuicShortHeaderMatched, config)
    case LongHeader => (limit, QuicLongHeader)
    case UnknownCidFallback => (limit, QuicShortHeaderUnknownCidFallback)
    case DcidMismatchFallback => (limit, QuicShortHeaderDcidMismatchFallback)
    case MalformedFallback => (limit, QuicMalformedFallback)
    case NotApplicable => (limit, QuicCandidate)
  }

  // ---------------------------------------------------------------------------------------------
  // What a tracker is asked

  lemma {:induction false} FlagBits(flags: byte)
    ensures BitSet(flags, 0x02) || BitSet(flags, 0x04) <==> HasSynOrRst(flags)
  {
    BitOf(flags, 2);
    BitOf(flags, 4);
  }

  lemma {:induction false} BitOf(flags: byte, bit: nat)
    requires bit == 2 || bit == 4
    ensures BitSet(flags, bit) <==> flags % (2 * bit) >= bit
  {
    var above, rest := flags / (2 * bit), flags % (2 * bit);
    assert flags == 2 * bit * above + rest;
    assert flags / bit == 2 * above + rest / bit;
  }

  /** What decoding reports of a frame, as far as the policy looks at it. */
  lemma {:induction false} WholeFields(
    macs: seq<byte>, tags: seq<VlanTag>, ip: Network, t: Transport, trailer: seq<byte>)
    requires ValidFrame(macs, tags, ip, t)
    ensures var decoded, offset := DecodedFrame(tags, ip, t), 14 + 4 * |tags| + ip.HeaderLength() + t.HeaderLength();
            && Decoded(Frame(macs, tags, ip, t, trailer)) == decoded
            && decoded.failureReason == NoFailure && decoded.success
            && decoded.ipVersion == (if ip.Ip4? then Ipv4 else Ipv6)
            && decoded.transportProtocol == (if t.TcpSegment? then Tcp else Udp)
            && decoded.addressLength == ip.AddressLength()
            && decoded.srcAddress == Padded(ip.src) && decoded.dstAddress == Padded(ip.dst)
            && decoded.srcPort == t.srcPort && decoded.dstPort == t.dstPort
            && (t.TcpSegment? ==> decoded.tcpSeq == t.seqNumber && decoded.tcpFlags == t.flags)
            && decoded.transportPayloadOffset == offset && decoded.transportPayloadLength == |t.payload|
            && Holds(Frame(macs, tags, ip, t, trailer), offset, t.payload)
  {
    hide Decoded;
    hide Frame;
    hide Holds;
    FrameRoundTrip(macs, tags, ip, t, trailer);
  }

  lemma {:induction false} WholeAsked(packet: CapturedPacket, form: Form, config: PolicyConfig)
    requires form.Valid() && form.Whole? && form.Bytes() == packet.Bytes() && !packet.Malformed()
    ensures Answers(packet, QuestionOf(packet, form, config), config)
  {
    hide Decoded;
    hide DecodedFrame;
    hide Frame;
    hide WellFormedDecode;
    hide BitSet;
    hide HasSynOrRst;
    hide Padded;
    WholeFields(form.macs, form.tags, form.ip, form.transport, form.trailer);
    if form.transport.TcpSegment? {
      FlagBits(form.transport.flags);
    }
  }

  /** The trackers are given exactly what the question says; without one, the packet is classified as it says. */
  predicate Answers(packet: CapturedPacket, question: Question, config: PolicyConfig) {
    && SegmentIn(packet, config) == (if question.AskTls? then Some(question.segment) else None)
    && DatagramIn(packet, config) == (if question.AskQuic? then Some(question.datagram) else None)
    && (question.NoQuestion? ==> Classify(packet, Decoded(packet.Bytes()), config) == question.reason)
    && (!question.NoQuestion? ==> Decoded(packet.Bytes()).transportPayloadOffset == question.offset)
  }

  /** The bytes of a packet: as many as it claims, if they are there. */
  predicate Shows(packet: CapturedPacket, form: Form)
    requires form.Valid()
  {
    form.Bytes() == packet.data[..if packet.capturedLen <= |packet.data| then packet.capturedLen else |packet.data|]
  }

  /** The trackers are given exactly the segments and datagrams that packets ask about: in a sane packet with a whole
      TCP or UDP packet, with the protocol enabled and either port configured, those with payload, and SYN and RST
      segments. */
  lemma {:induction false} AskedExactly(packet: CapturedPacket, form: Form, config: PolicyConfig)
    requires form.Valid() && Shows(packet, form)
    ensures Answers(packet, QuestionOf(packet, form, config), config)
  {
    hide Decoded;
    hide WellFormedDecode;
    hide Form.Valid;
    hide Form.Bytes;
    hide Form.Outcome;
    hide IpReason;
    hide TlsQuestion;
    hide QuicQuestion;
    if packet.Malformed() {
      assert Classify(packet, Decoded(packet.Bytes()), config) == ParseError;
    } else if form.Whole? {
      WholeAsked(packet, form, config);
    } else {
      FormDecides(form);
      RefusedOrPlain(form);
    }
  }

  /** The outcomes of all other forms. */
  lemma {:induction false} RefusedOrPlain(form: Form)
    requires form.Valid() && !form.Whole?
    ensures var decoded := form.Outcome();
            && decoded.transportProtocol == NoTransport
            && (form.NoIpPacket? ==> decoded.failureReason == NoFailure && decoded.IsNonIp())
            && (form.IpPacket? ==>
                  && decoded.failureReason == IpReason(form.ip, form.protocol, form.body)
                  && decoded.ipVersion != NoIp)
            && (!form.NoIpPacket? && !form.IpPacket? ==> decoded.failureReason != NoFailure)
  {
    hide Ip4Problem;
    hide Ip6Problem;
    hide IpReason;
  }

  // ---------------------------------------------------------------------------------------------
  // The decision

  lemma {:induction false} BaselineIsLimit(packet: CapturedPacket, config: PolicyConfig)
    ensures Baseline(packet, config) == Limit(packet, config)
  {
    var numbers: seq<nat> :=
      [|packet.data|, packet.capturedLen, packet.originalLen, config.defaultSnaplen, config.maxCaptureLen];
    assert Baseline(packet, config) in numbers;
    assert forall i :: 0 <= i < 5 ==> Baseline(packet, config) <= numbers[i];
    assert Least(numbers) <= Baseline(packet, config);
  }

  /** A packet that no tracker is given. */
  lemma {:induction false} WithoutTracker(state: PolicyState, packet: CapturedPacket, config: PolicyConfig)
    requires SegmentIn(packet, config).None? && DatagramIn(packet, config).None?
    ensures var (next, decision) := PolicyStep(state, packet, config);
            && next == state && decision.outputLen == Baseline(packet, config)
            && decision.reason == Classify(packet, Decoded(packet.Bytes()), config)
  {
    hide Decoded;
    hide Classify;
    hide AsksTls;
    hide AsksQuic;
    hide Baseline;
  }

  lemma {:induction false} OriginalLength(state: PolicyState, packet: CapturedPacket, config: PolicyConfig)
    ensures PolicyStep(state, packet, config).1.originalLen == Max(packet.originalLen, Baseline(packet, config))
    ensures PolicyStep(state, packet, config).1.decode == Decoded(packet.Bytes())
  {
    hide Decoded;
    hide Classify;
    hide AsksTls;
    hide AsksQuic;
    hide Baseline;
    hide TlsAnswer;
    hide QuicAnswer;
    hide Tls.PacketStep;
    hide Quic.PacketStep;
  }

  /** How long the output is after an answer of the TLS tracker, and why. */
  lemma {:induction false} WithTls(state: PolicyState, packet: CapturedPacket, config: PolicyConfig)
    requires SegmentIn(packet, config).Some?
    ensures var (table, verdict) := Tls.TableStep(state.tls, SegmentIn(packet, config).value, config.tls);
            var (next, decision) := PolicyStep(state, packet, config);
            && next == state.(tls := table)
            && (decision.outputLen as nat, decision.reason)
               == AfterTls(verdict, Decoded(packet.Bytes()).transportPayloadOffset, Baseline(packet, config), config)
  {
    hide Decoded;
    hide WellFormedDecode;
    hide Baseline;
    hide Quic.PacketStep;
    hide Tls.DirectionStep;
    hide Tls.DirectionOf;
    hide Tls.Store;
    hide Tls.AfterFlags;
    TransportIsInBounds(packet);
    var segment := SegmentIn(packet, config).value;
    CutIsInsidePayload(state.tls, segment, config.tls);
  }

  lemma {:induction false} WithQuic(state: PolicyState, packet: CapturedPacket, config: PolicyConfig)
    requires DatagramIn(packet, config).Some?
    ensures DatagramIn(packet, config).value.WellFormed()
    ensures var (table, verdict) := Quic.TableStep(state.quic, DatagramIn(packet, config).value, config.quic);
            var (next, decision) := PolicyStep(state, packet, config);
            && next == state.(quic := table)
            && (decision.outputLen as nat, decision.reason)
               == AfterQuic(verdict, Decoded(packet.Bytes()).transportPayloadOffset, Baseline(packet, config), config)
  {
    hide Decoded;
    hide WellFormedDecode;
    hide Baseline;
    hide Tls.PacketStep;
    hide Quic.PacketStep;
    hide Quic.TableStep;
    hide Quic.PaddedAddresses;
    hide Quic.Datagram.WellFormed;
    DatagramInIsWellFormed(packet, config);
    DecodedAddressesArePadded(packet, config);
    TransportIsInBounds(packet);
    Quic.PacketIsStep(state.quic, packet.Bytes(), Decoded(packet.Bytes()), config.quic);
  }

  /** The decision on every packet, and what it does to the trackers: the limit and a reason of its own, if no tracker
      is asked; otherwise what follows from the answer. */
  lemma {:induction false} DecisionOfPacket(
    state: PolicyState, packet: CapturedPacket, form: Form, config: PolicyConfig)
    requires form.Valid() && Shows(packet, form)
    ensures DatagramIn(packet, config).Some? ==> DatagramIn(packet, config).value.WellFormed()
    ensures var (next, decision) := PolicyStep(state, packet, config);
            var limit := Limit(packet, config);
            && decision.originalLen == Max(packet.originalLen, limit)
            && decision.decode == form.Outcome()
            && match QuestionOf(packet, form, config)
               case NoQuestion(reason) =>
                 next == state && decision.reason == reason && decision.outputLen == limit
               case AskTls(segment, offset) =>
                 var (table, verdict) := Tls.TableStep(state.tls, segment, config.tls);
                 && next == state.(tls := table)
                 && (decision.outputLen as nat, decision.reason) == AfterTls(verdict, offset, limit, config)
               case AskQuic(datagram, offset) =>
                 && datagram.WellFormed()
                 && var (table, verdict) := Quic.TableStep(state.quic, datagram, config.quic);
                    && next == state.(quic := table)
                    && (decision.outputLen as nat, decision.reason) == AfterQuic(verdict, offset, limit, config)
  {
    hide PolicyStep;
    hide Decoded;
    hide Baseline;
    hide Limit;
    hide Form.Valid;
    hide Form.Bytes;
    hide QuestionOf;
    hide SegmentIn;
    hide DatagramIn;
    hide Classify;
    hide Tls.TableStep;
    hide Quic.TableStep;
    hide Quic.Datagram.WellFormed;
    hide AfterTls;
    hide AfterQuic;
    hide Form.Outcome;
    FormDecides(form);
    AskedExactly(packet, form, config);
    BaselineIsLimit(packet, config);
    OriginalLength(state, packet, config);
    match QuestionOf(packet, form, config)
    case NoQuestion(_) => WithoutTracker(state, packet, config);
    case AskTls(_, _) => WithTls(state, packet, config);
    case AskQuic(_, _) => WithQuic(state, packet, config);
  }
}
