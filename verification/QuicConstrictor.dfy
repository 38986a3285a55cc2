/** The QUIC connection-ID learner (src/policy/QuicConstrictor.cpp).

    `QuicConstrictor.Evaluate` walks the coalesced long-header packets of a datagram (section 12.2 of
    RFC 9000), learns their source connection IDs per flow, and judges a short header that follows
    them. `Walk` says what the walk finds, `FlowStep` what a datagram does to one flow. */
module Quic {
  import opened Bytes
  import opened Config
  import opened PacketDecode

  const MAX_CONNECTION_ID_LENGTH: nat := 20

  datatype Disposition =
    | NotApplicable
    | LongHeader
    | ShortHeaderMatched
    | UnknownCidFallback
    | DcidMismatchFallback
    | MalformedFallback

  datatype QuicConstrictResult = QuicConstrictResult(disposition: Disposition, outputLen: u32)

  /** A connection ID, if one is known; the bytes are those within its length. */
  datatype ConnectionId = UnknownCid | Cid(bytes: seq<byte>)

  datatype Endpoint = Endpoint(address: Address, addressLength: byte, port: u16)

  datatype FlowKey = FlowKey(ipVersion: IpVersion, endpointA: Endpoint, endpointB: Endpoint)

  datatype FlowDirection = AToB | BToA

  datatype FlowState = FlowState(endpointAScid: ConnectionId, endpointBScid: ConnectionId)

  type FlowTable = map<FlowKey, FlowState>

  const NEW_FLOW := FlowState(UnknownCid, UnknownCid)

  // ---------------------------------------------------------------------------------------------
  // Parsing

  predicate IsLongHeader(firstByte: byte) {
    firstByte >= 0x80
  }

  predicate IsShortHeaderCompatible(firstByte: byte) {
    0x40 <= firstByte < 0x80
  }

  /** A value read from a payload and the offset just after it. */
  datatype Read<+T> = Read(value: T, next: nat)

  function ReadConnectionId(payload: seq<byte>, offset: nat): (read: Option<Read<ConnectionId>>)
    ensures read.Some? ==> offset < read.value.next <= |payload|
  {
    if !HasBytes(payload, offset, 1) then None
    else
      var length: int := payload[offset];
      if length > MAX_CONNECTION_ID_LENGTH || !HasBytes(payload, offset + 1, length) then None
      else Some(Read(Cid(payload[offset + 1..offset + 1 + length]), offset + 1 + length))
  }

  /** The number that a string of bytes spells, most significant byte first. */
  function BigEndian(bytes: seq<byte>): nat {
    if bytes == [] then 0 else BigEndian(bytes[..|bytes| - 1]) * 0x100 + bytes[|bytes| - 1]
  }

  /** The number of bytes of a variable-length integer, from its first byte. */
  function VarintSize(first: byte): (size: nat)
    ensures size in {1, 2, 4, 8}
  {
    if first < 0x40 then 1 else if first < 0x80 then 2 else if first < 0xC0 then 4 else 8
  }

  /** A variable-length integer: section 16 of RFC 9000. */
  function Varint(bytes: seq<byte>, offset: nat): (read: Option<Read<nat>>)
    ensures read.Some? ==> offset < read.value.next <= |bytes|
  {
    if !HasBytes(bytes, offset, 1) then None
    else
      var size := VarintSize(bytes[offset]);
      if !HasBytes(bytes, offset, size) then None
      else Some(Read(BigEndian([bytes[offset] % 0x40] + bytes[offset + 1..offset + size]), offset + size))
  }

  datatype LongHeaderInfo = LongHeaderInfo(
    totalSize: nat,
    packetType: byte,
    version: u32,
    dcid: ConnectionId,
    scid: ConnectionId)

  const INITIAL_PACKET: byte := 0
  const RETRY_PACKET: byte := 3

  /** Where the Length field of a long header that is no Retry starts: an Initial has a token first. */
  function LengthFieldOffset(payload: seq<byte>, packetType: byte, offset: nat): Option<nat> {
    if packetType != INITIAL_PACKET then Some(offset)
    else
      match Varint(payload, offset)
      case None => None
      case Some(token) => if HasBytes(payload, token.next, token.value) then Some(token.next + token.value) else None
  }

  /** The long-header packet at `start`: sections 17.2, 17.2.2 and 17.2.5 of RFC 9000. */
  function LongHeaderAt(payload: seq<byte>, start: nat): Option<LongHeaderInfo> {
    if !HasBytes(payload, start, 7) || !IsLongHeader(payload[start]) then None
    else
      var packetType := (payload[start] / 0x10) % 4;
      var version := ReadBe32(payload, start + 1);
      var dcid := ReadConnectionId(payload, start + 5);
      if version == 0 || dcid.None? then None
      else
        var scid := ReadConnectionId(payload, dcid.value.next);
        if scid.None? then None
        else if packetType == RETRY_PACKET then
          Some(LongHeaderInfo(|payload| - start, packetType, version, dcid.value.value, scid.value.value))
        else
          var lengthField := LengthFieldOffset(payload, packetType, scid.value.next);
          var length := if lengthField.Some? then Varint(payload, lengthField.value) else None;
          if length.None? || !HasBytes(payload, length.value.next, length.value.value) then None
          else
            Some(LongHeaderInfo(
                   length.value.next + length.value.value - start, packetType, version, dcid.value.value,
                   scid.value.value))
  }

  lemma {:induction false} LongHeaderSize(payload: seq<byte>, start: nat)
    requires LongHeaderAt(payload, start).Some?
    ensures 7 <= LongHeaderAt(payload, start).value.totalSize <= |payload| - start
  {
  }

  /** The long-header packets found one after the other, where the walk stops, and whether it stops
      because a long header does not parse. */
  datatype Walked = Walked(headers: seq<LongHeaderInfo>, end: nat, malformed: bool)

  function Walk(payload: seq<byte>, offset: nat): Walked
    decreases |payload| - offset
  {
    if offset >= |payload| || !IsLongHeader(payload[offset]) then Walked([], offset, false)
    else
      match LongHeaderAt(payload, offset)
      case None => Walked([], offset, true)
      case Some(header) =>
        LongHeaderSize(payload, offset);
        var rest := Walk(payload, offset + header.totalSize);
        rest.(headers := [header] + rest.headers)
  }

  // ---------------------------------------------------------------------------------------------
  // Flows

  /** Lexicographic comparison of the first `n` bytes from `i` on: -1, 0 or 1. */
  function CompareBytes(left: Address, right: Address, i: nat, n: nat): int
    requires i <= n <= 16
    decreases n - i
  {
    if i == n then 0
    else if left[i] < right[i] then -1
    else if left[i] > right[i] then 1
    else CompareBytes(left, right, i + 1, n)
  }

  function CompareEndpoints(left: Endpoint, right: Endpoint): int
    requires left.addressLength <= 16 && right.addressLength <= 16
  {
    var byAddress := CompareBytes(left.address, right.address, 0, Min(left.addressLength, right.addressLength));
    if byAddress != 0 then byAddress
    else if left.addressLength < right.addressLength then -1
    else if left.addressLength > right.addressLength then 1
    else if left.port < right.port then -1
    else if left.port > right.port then 1
    else 0
  }

  /** One key for both directions of a flow, and which of the two this packet goes in. */
  function CanonicalFlow(ipVersion: IpVersion, source: Endpoint, destination: Endpoint): (FlowKey, FlowDirection)
    requires source.addressLength <= 16 && destination.addressLength <= 16
  {
    if CompareEndpoints(source, destination) <= 0
    then (FlowKey(ipVersion, source, destination), AToB)
    else (FlowKey(ipVersion, destination, source), BToA)
  }

  function SenderCid(state: FlowState, direction: FlowDirection): ConnectionId {
    if direction == AToB then state.endpointAScid else state.endpointBScid
  }

  function ReceiverCid(state: FlowState, direction: FlowDirection): ConnectionId {
    if direction == AToB then state.endpointBScid else state.endpointAScid
  }

  /** What one parsed long header teaches about its sender. */
  function Learn(state: FlowState, direction: FlowDirection, header: LongHeaderInfo): FlowState {
    if header.scid.UnknownCid? || header.scid.bytes == [] then state
    else if direction == AToB then state.(endpointAScid := header.scid)
    else state.(endpointBScid := header.scid)
  }

  function LearnAll(state: FlowState, direction: FlowDirection, headers: seq<LongHeaderInfo>): FlowState
    decreases |headers|
  {
    if headers == [] then state else LearnAll(Learn(state, direction, headers[0]), direction, headers[1..])
  }

  /** The entry of a flow after the long headers of a datagram. */
  function Learned(
    entry: Option<FlowState>, direction: FlowDirection, headers: seq<LongHeaderInfo>): Option<FlowState> {
    if headers == [] then entry
    else Some(LearnAll(if entry.Some? then entry.value else NEW_FLOW, direction, headers))
  }

  lemma {:induction false} LearnedCons(
    entry: Option<FlowState>, direction: FlowDirection, header: LongHeaderInfo, rest: seq<LongHeaderInfo>)
    ensures Learned(entry, direction, [header] + rest)
            == Learned(Some(Learn(if entry.Some? then entry.value else NEW_FLOW, direction, header)), direction, rest)
  {
    assert ([header] + rest)[1..] == rest;
  }

  datatype Verdict = Verdict(disposition: Disposition, keptPayload: nat)

  /** The verdict on what follows the long headers, given the receiver's connection ID. */
  function JudgeTail(
    payload: seq<byte>, end: nat, sawLongHeader: bool, expected: ConnectionId, options: QuicOptions): Verdict
    requires end <= |payload|
  {
    var rest := |payload| - end;
    if rest == 0 then Verdict(if sawLongHeader then LongHeader else NotApplicable, 0)
    else if !IsShortHeaderCompatible(payload[end]) then
      Verdict(if sawLongHeader then MalformedFallback else NotApplicable, 0)
    else if expected == UnknownCid then
      if options.requireDcidMatch || !options.allowShortHeaderWithoutKnownDcid then Verdict(UnknownCidFallback, 0)
      else Verdict(ShortHeaderMatched, end + Min(rest, Max(options.shortHeaderKeepPacketBytes, 1)))
    else
      var prefix := 1 + |expected.bytes|;
      if rest < prefix then Verdict(MalformedFallback, 0)
      else if payload[end + 1..end + prefix] != expected.bytes then Verdict(DcidMismatchFallback, 0)
      else Verdict(ShortHeaderMatched, end + Min(rest, Max(options.shortHeaderKeepPacketBytes, prefix)))
  }

  /** What a datagram does to its flow: the entry it leaves, if any, and its verdict. Headers parsed
      before a malformed one have already been learned. */
  function FlowStep(entry: Option<FlowState>, direction: FlowDirection, payload: seq<byte>, options: QuicOptions)
    : (next: (Option<FlowState>, Verdict))
    ensures next.1.keptPayload <= |payload|
  {
    var walked := Walk(payload, 0);
    WalkEnds(payload, 0);
    var learned := Learned(entry, direction, walked.headers);
    var expected := if learned.Some? then ReceiverCid(learned.value, direction) else UnknownCid;
    (learned,
     if walked.malformed then Verdict(MalformedFallback, 0)
     else JudgeTail(payload, walked.end, walked.headers != [], expected, options))
  }

  lemma {:induction false} WalkEnds(payload: seq<byte>, offset: nat)
    requires offset <= |payload|
    ensures offset <= Walk(payload, offset).end <= |payload|
    ensures !Walk(payload, offset).malformed && Walk(payload, offset).end < |payload| ==>
              !IsLongHeader(payload[Walk(payload, offset).end])
    ensures Walk(payload, offset).headers == [] ==> Walk(payload, offset).end == offset
    decreases |payload| - offset
  {
    hide LongHeaderAt;
    if offset < |payload| && IsLongHeader(payload[offset]) && LongHeaderAt(payload, offset).Some? {
      LongHeaderSize(payload, offset);
      WalkEnds(payload, offset + LongHeaderAt(payload, offset).value.totalSize);
    }
  }

  // ---------------------------------------------------------------------------------------------
  // Datagrams

  /** A UDP datagram on a QUIC port as the learner sees it. */
  datatype Datagram = Datagram(ipVersion: IpVersion, source: Endpoint, destination: Endpoint, payload: seq<byte>)
  {
    /** Addresses of the announced length, padded with zeros, on both ends alike. */
    predicate WellFormed() {
      && source.addressLength == destination.addressLength <= 16
      && source.address[source.addressLength..] == ZERO_ADDRESS[source.addressLength..]
      && destination.address[destination.addressLength..] == ZERO_ADDRESS[destination.addressLength..]
    }

    function Key(): FlowKey
      requires WellFormed()
    {
      CanonicalFlow(ipVersion, source, destination).0
    }

    function Direction(): FlowDirection
      requires WellFormed()
    {
      CanonicalFlow(ipVersion, source, destination).1
    }
  }

  function EntryOf(table: FlowTable, key: FlowKey): Option<FlowState> {
    if key in table then Some(table[key]) else None
  }

  function StoreEntry(table: FlowTable, key: FlowKey, entry: Option<FlowState>): FlowTable {
    if entry.Some? then table[key := entry.value] else table
  }

  lemma {:induction false} StoredTwice(
    table: FlowTable, key: FlowKey, first: Option<FlowState>, second: Option<FlowState>)
    requires first.Some? ==> second.Some?
    ensures StoreEntry(StoreEntry(table, key, first), key, second) == StoreEntry(table, key, second)
    ensures first.Some? ==> EntryOf(StoreEntry(table, key, first), key) == first
  {
  }

  function TableStep(table: FlowTable, datagram: Datagram, options: QuicOptions): (next: (FlowTable, Verdict))
    requires datagram.WellFormed()
    ensures next.1.keptPayload <= |datagram.payload|
  {
    var (entry, verdict) := FlowStep(EntryOf(table, datagram.Key()), datagram.Direction(), datagram.payload, options);
    (StoreEntry(table, datagram.Key(), entry), verdict)
  }

  function DatagramOf(packet: seq<byte>, decoded: PacketDecodeResult): Datagram
    requires HasBytes(packet, decoded.transportPayloadOffset, decoded.transportPayloadLength)
  {
    Datagram(
      decoded.ipVersion,
      Endpoint(decoded.srcAddress, decoded.addressLength, decoded.srcPort),
      Endpoint(decoded.dstAddress, decoded.addressLength, decoded.dstPort),
      packet[decoded.transportPayloadOffset..decoded.transportPayloadOffset + decoded.transportPayloadLength])
  }

  /** Addresses of a decoded packet are padded with zeros. */
  predicate PaddedAddresses(decoded: PacketDecodeResult) {
    && decoded.addressLength <= 16
    && decoded.srcAddress[decoded.addressLength..] == ZERO_ADDRESS[decoded.addressLength..]
    && decoded.dstAddress[decoded.addressLength..] == ZERO_ADDRESS[decoded.addressLength..]
  }

  lemma {:induction false} DatagramIsWellFormed(packet: seq<byte>, decoded: PacketDecodeResult)
    requires PaddedAddresses(decoded)
    requires HasBytes(packet, decoded.transportPayloadOffset, decoded.transportPayloadLength)
    ensures DatagramOf(packet, decoded).WellFormed() && decoded.addressLength <= 16
  {
  }

  /** Whether a packet is for the learner at all, which does not depend on its table. */
  predicate ForQuic(decoded: PacketDecodeResult, options: QuicOptions) {
    && options.enabled && decoded.transportProtocol == Udp && decoded.transportPayloadLength > 0
    && (PortConfigured(options.ports, decoded.srcPort) || PortConfigured(options.ports, decoded.dstPort))
  }

  function AnswerOf(verdict: Verdict, payloadOffset: nat): QuicConstrictResult {
    QuicConstrictResult(
      verdict.disposition,
      if verdict.disposition == ShortHeaderMatched then ToU32(payloadOffset + verdict.keptPayload) else 0)
  }

  function PacketStep(table: FlowTable, packet: seq<byte>, decoded: PacketDecodeResult, options: QuicOptions)
    : (FlowTable, QuicConstrictResult)
    requires PaddedAddresses(decoded)
  {
    if !ForQuic(decoded, options) then (table, QuicConstrictResult(NotApplicable, 0))
    else if !HasBytes(packet, decoded.transportPayloadOffset, decoded.transportPayloadLength) then
      (table, QuicConstrictResult(MalformedFallback, 0))
    else
      DatagramIsWellFormed(packet, decoded);
      var (next, verdict) := TableStep(table, DatagramOf(packet, decoded), options);
      (next, AnswerOf(verdict, decoded.transportPayloadOffset))
  }

  /** A packet step is a table step, or nothing. */
  lemma {:induction false} PacketIsStep(
    table: FlowTable, packet: seq<byte>, decoded: PacketDecodeResult, options: QuicOptions)
    requires PaddedAddresses(decoded)
    ensures !ForQuic(decoded, options) ==>
              PacketStep(table, packet, decoded, options) == (table, QuicConstrictResult(NotApplicable, 0))
    ensures var readable := HasBytes(packet, decoded.transportPayloadOffset, decoded.transportPayloadLength);
            ForQuic(decoded, options) ==>
              if !readable then
                PacketStep(table, packet, decoded, options) == (table, QuicConstrictResult(MalformedFallback, 0))
              else
                && DatagramOf(packet, decoded).WellFormed()
                && var (next, verdict) := TableStep(table, DatagramOf(packet, decoded), options);
                   PacketStep(table, packet, decoded, options)
                   == (next, AnswerOf(verdict, decoded.transportPayloadOffset))
  {
    hide TableStep;
    hide ForQuic;
    hide AnswerOf;
    hide PaddedAddresses;
    hide Datagram.WellFormed;
    hide DatagramOf;
    if HasBytes(packet, decoded.transportPayloadOffset, decoded.transportPayloadLength) {
      DatagramIsWellFormed(packet, decoded);
    }
  }

  /** A table step in two phases: the walk, which learns, and the verdict on what follows the long headers. */
  lemma {:induction false} StepInPhases(table: FlowTable, d: Datagram, options: QuicOptions)
    requires d.WellFormed()
    ensures var walked := Walk(d.payload, 0);
            var learned := Learned(EntryOf(table, d.Key()), d.Direction(), walked.headers);
            && walked.end <= |d.payload|
            && TableStep(table, d, options)
               == (StoreEntry(table, d.Key(), learned),
                   if walked.malformed then Verdict(MalformedFallback, 0)
                   else JudgeTail(d.payload, walked.end, walked.headers != [],
                                  if learned.Some? then ReceiverCid(learned.value, d.Direction()) else UnknownCid,
                                  options))
  {
    hide Walk;
    hide Learned;
    hide JudgeTail;
    hide CanonicalFlow;
    WalkEnds(d.payload, 0);
  }

  // ---------------------------------------------------------------------------------------------
  // The learner

  /** The varint reader: a loop over the bytes after the first. */
  method ReadVarint(bytes: seq<byte>, offset: nat) returns (ok: bool, next: nat, value: nat)
    ensures ok <==> Varint(bytes, offset).Some?
    ensures ok ==> Read(value, next) == Varint(bytes, offset).value
  {
    ok, next, value := false, offset, 0;
    if !HasBytes(bytes, offset, 1) {
      return;
    }
    var first := bytes[offset];
    var length := VarintSize(first);
    if !HasBytes(bytes, offset, length) {
      return;
    }
    value := first % 0x40;
    ghost var masked: seq<byte> := [first % 0x40];
    assert BigEndian(masked) == value;
    for index := 1 to length
      invariant value == BigEndian(masked + bytes[offset + 1..offset + index])
    {
      var before := masked + bytes[offset + 1..offset + index];
      var after := masked + bytes[offset + 1..offset + index + 1];
      assert after == before + [bytes[offset + index]];
      assert after[..|after| - 1] == before;
      value := value * 0x100 + bytes[offset + index];
    }
    ok, next := true, offset + length;
  }

  method ParseLongHeader(payload: seq<byte>, start: nat) returns (ok: bool, out: LongHeaderInfo)
    ensures ok <==> LongHeaderAt(payload, start).Some?
    ensures ok ==> out == LongHeaderAt(payload, start).value
  {
    hide Varint;
    hide ReadBe32;
    hide ReadConnectionId;
    ok, out := false, LongHeaderInfo(0, 0, 0, UnknownCid, UnknownCid);
    if !HasBytes(payload, start, 7) {
      return;
    }
    var firstByte := payload[start];
    if !IsLongHeader(firstByte) {
      return;
    }
    out := out.(packetType := (firstByte / 0x10) % 4);
    out := out.(version := ReadBe32(payload, start + 1));
    if out.version == 0 {
      return;
    }
    var offset := start + 5;
    var dcid := ReadConnectionId(payload, offset);
    if dcid.None? {
      return;
    }
    out, offset := out.(dcid := dcid.value.value), dcid.value.next;
    var scid := ReadConnectionId(payload, offset);
    if scid.None? {
      return;
    }
    out, offset := out.(scid := scid.value.value), scid.value.next;

    if out.packetType == INITIAL_PACKET {
      var read, next, tokenLength := ReadVarint(payload, offset);
      if !read {
        return;
      }
      offset := next;
      if tokenLength > |payload| || !HasBytes(payload, offset, tokenLength) {
        return;
      }
      offset := offset + tokenLength;
    } else if out.packetType == RETRY_PACKET {
      out := out.(totalSize := |payload| - start);
      ok := true;
      return;
    }

    var read, next, packetLength := ReadVarint(payload, offset);
    if !read {
      return;
    }
    offset := next;
    if packetLength > |payload| || !HasBytes(payload, offset, packetLength) {
      return;
    }
    out := out.(totalSize := offset + packetLength - start);
    ok := true;
  }

  class QuicConstrictor {
    var flowStates: FlowTable

    constructor ()
      ensures flowStates == map[]
    {
      flowStates := map[];
    }

    /** The walk over the coalesced long headers of a datagram, learning as it goes. */
    method LearnLongHeaders(key: FlowKey, direction: FlowDirection, payload: seq<byte>)
      returns (malformed: bool, offset: nat, sawLongHeader: bool)
      modifies this
      ensures var walked := Walk(payload, 0);
              && malformed == walked.malformed
              && offset == walked.end <= |payload|
              && (sawLongHeader <==> walked.headers != [])
              && EntryOf(flowStates, key) == Learned(EntryOf(old(flowStates), key), direction, walked.headers)
              && flowStates == StoreEntry(old(flowStates), key, EntryOf(flowStates, key))
    {
      hide LongHeaderAt;
      hide LearnAll;
      malformed, offset, sawLongHeader := false, 0, false;
      WalkEnds(payload, 0);
      ghost var walked, table := Walk(payload, 0), flowStates;
      ghost var entry := EntryOf(table, key);
      ghost var learned := entry;
      while offset < |payload| && IsLongHeader(payload[offset])
        invariant offset <= |payload| && !malformed
        invariant Walk(payload, offset).end == walked.end && Walk(payload, offset).malformed == walked.malformed
        invariant !sawLongHeader ==> learned == entry && Walk(payload, offset) == walked
        invariant sawLongHeader ==> learned.Some? && walked.headers != []
        invariant flowStates == StoreEntry(table, key, learned) && EntryOf(flowStates, key) == learned
        invariant Learned(learned, direction, Walk(payload, offset).headers)
                  == Learned(entry, direction, walked.headers)
        decreases |payload| - offset
      {
        var ok, header := ParseLongHeader(payload, offset);
        if !ok {
          malformed := true;
          return;
        }
        LongHeaderSize(payload, offset);
        LearnedCons(learned, direction, header, Walk(payload, offset + header.totalSize).headers);
        sawLongHeader := true;
        var flowState := if key in flowStates then flowStates[key] else NEW_FLOW;
        if header.scid.Cid? && |header.scid.bytes| > 0 {
          if direction == AToB {
            flowState := flowState.(endpointAScid := header.scid);
          } else {
            flowState := flowState.(endpointBScid := header.scid);
          }
        }
        StoredTwice(table, key, learned, Some(flowState));
        StoredTwice(table, key, Some(flowState), Some(flowState));
        learned := Some(flowState);
        flowStates := flowStates[key := flowState];
        offset := offset + header.totalSize;
      }
    }

    /** What follows the long headers: the part of `Evaluate` after the walk. */
    method JudgeShortHeader(
      key: FlowKey, direction: FlowDirection, payload: seq<byte>, offset: nat, sawLongHeader: bool,
      options: QuicOptions)
      returns (verdict: Verdict)
      requires offset <= |payload|
      ensures var entry := EntryOf(flowStates, key);
              verdict == JudgeTail(payload, offset, sawLongHeader,
                                   if entry.Some? then ReceiverCid(entry.value, direction) else UnknownCid, options)
    {
      if offset == |payload| {
        return Verdict(if sawLongHeader then LongHeader else NotApplicable, 0);
      }
      if !IsShortHeaderCompatible(payload[offset]) {
        return Verdict(if sawLongHeader then MalformedFallback else NotApplicable, 0);
      }
      var expected := if key in flowStates then ReceiverCid(flowStates[key], direction) else UnknownCid;
      if expected == UnknownCid {
        if options.requireDcidMatch || !options.allowShortHeaderWithoutKnownDcid {
          return Verdict(UnknownCidFallback, 0);
        }
        var keep := Max(options.shortHeaderKeepPacketBytes, 1);
        return Verdict(ShortHeaderMatched, offset + Min(|payload| - offset, keep));
      }
      var requiredPrefixBytes := 1 + |expected.bytes|;
      if !HasBytes(payload, offset, requiredPrefixBytes) {
        return Verdict(MalformedFallback, 0);
      }
      if payload[offset + 1..offset + requiredPrefixBytes] != expected.bytes {
        return Verdict(DcidMismatchFallback, 0);
      }
      var keep := Max(options.shortHeaderKeepPacketBytes, requiredPrefixBytes);
      return Verdict(ShortHeaderMatched, offset + Min(|payload| - offset, keep));
    }

    /** What `Evaluate` does with the datagram of a packet that is for it. */
    method EvaluateDatagram(datagram: Datagram, options: QuicOptions) returns (verdict: Verdict)
      requires datagram.WellFormed()
      modifies this
      ensures (flowStates, verdict) == TableStep(old(flowStates), datagram, options)
    {
      hide Walk;
      hide Learned;
      hide CanonicalFlow;
      hide JudgeTail;
      hide ReceiverCid;
      hide StoreEntry;
      hide EntryOf;
      hide TableStep;
      StepInPhases(flowStates, datagram, options);
      var (key, direction) := CanonicalFlow(datagram.ipVersion, datagram.source, datagram.destination);
      var malformed, offset, sawLongHeader := LearnLongHeaders(key, direction, datagram.payload);
      if malformed {
        return Verdict(MalformedFallback, 0);
      }
      verdict := JudgeShortHeader(key, direction, datagram.payload, offset, sawLongHeader, options);
    }

    method Evaluate(packet: seq<byte>, decoded: PacketDecodeResult, options: QuicOptions)
      returns (result: QuicConstrictResult)
      requires PaddedAddresses(decoded)
      modifies this
      ensures (flowStates, result) == PacketStep(old(flowStates), packet, decoded, options)
    {
      hide PaddedAddresses;
      hide Datagram.WellFormed;
      hide DatagramOf;
      hide PortConfigured;
      hide PacketStep;
      hide TableStep;
      hide ToU32;
      PacketIsStep(flowStates, packet, decoded, options);
      result := QuicConstrictResult(NotApplicable, 0);
      if !options.enabled || decoded.transportProtocol != Udp || decoded.transportPayloadLength == 0
         || (!PortConfigured(options.ports, decoded.srcPort) && !PortConfigured(options.ports, decoded.dstPort)) {
        return;
      }
      if decoded.transportPayloadOffset > |packet|
         || decoded.transportPayloadLength > |packet| - decoded.transportPayloadOffset {
        result := QuicConstrictResult(MalformedFallback, 0);
        return;
      }
      var verdict := EvaluateDatagram(DatagramOf(packet, decoded), options);
      result := QuicConstrictResult(
        verdict.disposition,
        if verdict.disposition == ShortHeaderMatched
        then ToU32(decoded.transportPayloadOffset + verdict.keptPayload)
        else 0);
    }
  }
}
