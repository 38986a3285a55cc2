/** The capture decision for one packet (src/policy/LiveCapturePolicy.cpp): decode, classify, ask the
    TLS or QUIC tracker, and clamp. */
module Policy {
  import opened Bytes
  import opened Config
  import opened PacketDecode
  import Tls
  import Quic

  /** A packet as the capture hands it over: its bytes, the lengths it claims and a timestamp in
      nanoseconds since the epoch (src/capture/PacketView.hpp, src/capture/CapturedPacket.hpp). */
  datatype CapturedPacket = CapturedPacket(data: seq<byte>, capturedLen: u32, originalLen: u32, timestamp: int)
  {
    function SafeCapturedLen(): u32 {
      Min(capturedLen, |data|)
    }

    /** The bytes that the policy looks at. */
    function Bytes(): seq<byte> {
      data[..SafeCapturedLen()]
    }

    predicate Malformed() {
      capturedLen > |data| || originalLen < SafeCapturedLen()
    }
  }

  datatype DecisionReason =
    | Default
    | ParseError
    | NonIp
    | TcpPacket
    | UdpPacket
    | TlsCandidate
    | TlsApplicationDataConstricted
    | TlsMalformedFallback
    | TlsNoRecordFallback
    | QuicCandidate
    | QuicLongHeader
    | QuicShortHeaderMatched
    | QuicShortHeaderConstricted
    | QuicShortHeaderUnknownCidFallback
    | QuicShortHeaderDcidMismatchFallback
    | QuicMalformedFallback

  datatype Decision = Decision(outputLen: u32, originalLen: u32, reason: DecisionReason, decode: PacketDecodeResult)

  /** The two trackers' tables. */
  datatype PolicyState = PolicyState(tls: Tls.Table, quic: Quic.FlowTable)

  const INITIAL_STATE := PolicyState(map[], map[])

  function ApplyMinimumSavingsThreshold(baseline: u32, candidate: u32, minSavedBytes: u32): u32 {
    if candidate >= baseline then baseline
    else if baseline - candidate < minSavedBytes then baseline
    else candidate
  }

  /** What is kept of a packet that no tracker shortens. */
  function Baseline(packet: CapturedPacket, config: PolicyConfig): u32 {
    Min(Min(packet.SafeCapturedLen(), packet.originalLen), Min(config.defaultSnaplen, config.maxCaptureLen))
  }

  /** The reason by classification alone. */
  function Classify(packet: CapturedPacket, decoded: PacketDecodeResult, config: PolicyConfig): DecisionReason {
    if packet.Malformed() || decoded.failureReason != NoFailure then ParseError
    else if decoded.IsNonIp() then NonIp
    else if decoded.transportProtocol == Tcp then
      if config.tls.enabled
         && (PortConfigured(config.tls.ports, decoded.srcPort) || PortConfigured(config.tls.ports, decoded.dstPort))
      then TlsCandidate else TcpPacket
    else if decoded.transportProtocol == Udp then
      if config.quic.enabled
         && (PortConfigured(config.quic.ports, decoded.srcPort) || PortConfigured(config.quic.ports, decoded.dstPort))
      then QuicCandidate else UdpPacket
    else Default
  }

  /** The TLS tracker sees segments with payload, and SYN or RST segments. */
  predicate AsksTls(decoded: PacketDecodeResult, reason: DecisionReason) {
    && reason == TlsCandidate
    && (decoded.transportPayloadLength > 0 || BitSet(decoded.tcpFlags, 0x02) || BitSet(decoded.tcpFlags, 0x04))
  }

  predicate AsksQuic(decoded: PacketDecodeResult, reason: DecisionReason) {
    reason == QuicCandidate && decoded.transportPayloadLength > 0
  }

  /** The length and reason that a tracker's answer leads to. */
  function TlsAnswer(answer: Tls.TlsConstrictResult, baseline: u32, config: PolicyConfig): (u32, DecisionReason) {
    match answer.disposition
    case AppDataPrefix =>
      var length := ApplyMinimumSavingsThreshold(baseline, Min(baseline, answer.outputLen),
                                                 config.minSavedBytesPerPacket);
      (length, if length < baseline then TlsApplicationDataConstricted else TlsCandidate)
    case Malformed => (baseline, TlsMalformedFallback)
    case UncertainFallback => (baseline, TlsMalformedFallback)
    case NoRecord => (baseline, TlsNoRecordFallback)
    case NoApplicationData => (baseline, TlsCandidate)
  }

  function QuicAnswer(answer: Quic.QuicConstrictResult, baseline: u32, config: PolicyConfig): (u32, DecisionReason) {
    match answer.disposition
    case LongHeader => (baseline, QuicLongHeader)
    case ShortHeaderMatched =>
      var length := ApplyMinimumSavingsThreshold(baseline, Min(baseline, answer.outputLen),
                                                 config.minSavedBytesPerPacket);
      (length, if length < baseline then QuicShortHeaderConstricted else QuicShortHeaderMatched)
    case UnknownCidFallback => (baseline, QuicShortHeaderUnknownCidFallback)
    case DcidMismatchFallback => (baseline, QuicShortHeaderDcidMismatchFallback)
    case MalformedFallback => (baseline, QuicMalformedFallback)
    case NotApplicable => (baseline, QuicCandidate)
  }

  /** A decode without failure gives the QUIC learner padded addresses. */
  lemma {:induction false} DecodedAddressesArePadded(packet: CapturedPacket, config: PolicyConfig)
    ensures AsksQuic(Decoded(packet.Bytes()), Classify(packet, Decoded(packet.Bytes()), config)) ==>
              Quic.PaddedAddresses(Decoded(packet.Bytes()))
  {
    hide Decoded;
    if Decoded(packet.Bytes()).failureReason == NoFailure {
      DecodedIsWellFormed(packet.Bytes());
    }
  }

  /** One packet through the policy: the trackers' next state and the decision. */
  function PolicyStep(state: PolicyState, packet: CapturedPacket, config: PolicyConfig): (PolicyState, Decision) {
    var bytes := packet.Bytes();
    var decoded := Decoded(bytes);
    var baseline := Baseline(packet, config);
    var reason := Classify(packet, decoded, config);
    var originalLen := Max(packet.originalLen, baseline);
    DecodedAddressesArePadded(packet, config);
    if AsksTls(decoded, reason) then
      var (table, answer) := Tls.PacketStep(state.tls, bytes, decoded, config.tls);
      var (length, verdict) := TlsAnswer(answer, baseline, config);
      (state.(tls := table), Decision(length, originalLen, verdict, decoded))
    else if AsksQuic(decoded, reason) then
      var (table, answer) := Quic.PacketStep(state.quic, bytes, decoded, config.quic);
      var (length, verdict) := QuicAnswer(answer, baseline, config);
      (state.(quic := table), Decision(length, originalLen, verdict, decoded))
    else
      (state, Decision(baseline, originalLen, reason, decoded))
  }

  class LiveCapturePolicy {
    const config: PolicyConfig
    const tlsConstrictor: Tls.TlsConstrictor
    const quicConstrictor: Quic.QuicConstrictor

    ghost predicate Valid()
      reads tlsConstrictor
    {
      tlsConstrictor.Valid()
    }

    ghost function State(): PolicyState
      reads tlsConstrictor, quicConstrictor
    {
      PolicyState(tlsConstrictor.directions, quicConstrictor.flowStates)
    }

    constructor (config: PolicyConfig)
      ensures this.config == config
      ensures fresh(tlsConstrictor) && fresh(quicConstrictor)
      ensures Valid() && State() == INITIAL_STATE
    {
      this.config := config;
      tlsConstrictor := new Tls.TlsConstrictor();
      quicConstrictor := new Quic.QuicConstrictor();
    }

    method Evaluate(packet: CapturedPacket) returns (decision: Decision)
      requires Valid()
      modifies tlsConstrictor, quicConstrictor
      ensures Valid()
      ensures (State(), decision) == PolicyStep(old(State()), packet, config)
    {
      hide Decoded;
      hide Tls.PacketStep;
      hide Quic.PacketStep;
      hide Tls.TableInvariant;
      var safeCapturedLen := packet.SafeCapturedLen();
      var effectiveInputLen := Min(safeCapturedLen, packet.originalLen);
      var malformed := packet.capturedLen > |packet.data| || packet.originalLen < safeCapturedLen;
      var outputLen := Min(effectiveInputLen, Min(config.defaultSnaplen, config.maxCaptureLen));
      var conservativeOriginalLen := Max(packet.originalLen, outputLen);
      var bytes := packet.data[..safeCapturedLen];
      var decoded := DecodePacket(bytes);

      var reason := Default;
      if malformed {
        reason := ParseError;
      } else if decoded.failureReason != NoFailure {
        reason := ParseError;
      } else {
        if decoded.IsNonIp() {
          reason := NonIp;
        } else if decoded.transportProtocol == Tcp {
          var tlsCandidate :=
            config.tls.enabled
            && (PortConfigured(config.tls.ports, decoded.srcPort) || PortConfigured(config.tls.ports, decoded.dstPort));
          reason := if tlsCandidate then TlsCandidate else TcpPacket;
        } else if decoded.transportProtocol == Udp {
          var quicCandidate :=
            config.quic.enabled
            && (|| PortConfigured(config.quic.ports, decoded.srcPort)
                || PortConfigured(config.quic.ports, decoded.dstPort));
          reason := if quicCandidate then QuicCandidate else UdpPacket;
        }
      }
      assert reason == Classify(packet, decoded, config);

      var finalOutputLen := outputLen;
      if !malformed && decoded.failureReason == NoFailure && reason == TlsCandidate
         && (decoded.transportPayloadLength > 0 || BitSet(decoded.tcpFlags, 0x02) || BitSet(decoded.tcpFlags, 0x04)) {
        var tlsResult := tlsConstrictor.Evaluate(bytes, decoded, config.tls);
        if tlsResult.disposition == Tls.AppDataPrefix {
          finalOutputLen := ApplyMinimumSavingsThreshold(
            outputLen, Min(outputLen, tlsResult.outputLen), config.minSavedBytesPerPacket);
          if finalOutputLen < outputLen {
            reason := TlsApplicationDataConstricted;
          }
        } else if tlsResult.disposition == Tls.Malformed || tlsResult.disposition == Tls.UncertainFallback {
          reason := TlsMalformedFallback;
        } else if tlsResult.disposition == Tls.NoRecord {
          reason := TlsNoRecordFallback;
        }
      } else if !malformed && decoded.failureReason == NoFailure && reason == QuicCandidate
                && decoded.transportPayloadLength > 0 {
        DecodedAddressesArePadded(packet, config);
        var quicResult := quicConstrictor.Evaluate(bytes, decoded, config.quic);
        if quicResult.disposition == Quic.LongHeader {
          reason := QuicLongHeader;
        } else if quicResult.disposition == Quic.ShortHeaderMatched {
          finalOutputLen := ApplyMinimumSavingsThreshold(
            outputLen, Min(outputLen, quicResult.outputLen), config.minSavedBytesPerPacket);
          reason := if finalOutputLen < outputLen then QuicShortHeaderConstricted else QuicShortHeaderMatched;
        } else if quicResult.disposition == Quic.UnknownCidFallback {
          reason := QuicShortHeaderUnknownCidFallback;
        } else if quicResult.disposition == Quic.DcidMismatchFallback {
          reason := QuicShortHeaderDcidMismatchFallback;
        } else if quicResult.disposition == Quic.MalformedFallback {
          reason := QuicMalformedFallback;
        }
      }
      decision := Decision(finalOutputLen, conservativeOriginalLen, reason, decoded);
    }
  }
}
