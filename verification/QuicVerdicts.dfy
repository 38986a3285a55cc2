/** The other half of parsing: what the parser and the walk read, was serialized by the rules of RFC 9000. So a datagram
    is malformed exactly if it is no coalescing of packets, and the verdict on any other follows from its packets. */
module QuicVerdicts {
  import opened Bytes
  import opened Config
  import opened Quic
  import opened QuicPackets
  import opened QuicTraces

  // ---------------------------------------------------------------------------------------------
  // What is read was serialized

  lemma {:induction false} NumberHasDigits(bytes: seq<byte>)
    ensures Digits(BigEndian(bytes), |bytes|) == bytes
  {
    if bytes != [] {
      var n := |bytes| - 1;
      NumberHasDigits(bytes[..n]);
      assert bytes == bytes[..n] + [bytes[n]];
    }
  }

  lemma {:induction false} NumberBound(bytes: seq<byte>)
    requires bytes != []
    ensures BigEndian(bytes) < (bytes[0] + 1) * Power256(|bytes| - 1)
  {
    var n := |bytes| - 1;
    if n == 0 {
      assert bytes[..0] == [];
    } else {
      var first: int := bytes[0];
      NumberBound(bytes[..n]);
      Scaled(BigEndian(bytes[..n]), first + 1, Power256(n - 1), bytes[n]);
    }
  }

  lemma {:induction false} Scaled(value: nat, factor: nat, power: nat, digit: byte)
    requires value < factor * power
    ensures value * 0x100 + digit < factor * (0x100 * power)
  {
    assert factor * (0x100 * power) == 0x100 * (factor * power);
  }

  /** A varint that is read was written, in the size that its first byte names. */
  lemma {:induction false} VarintWasWritten(payload: seq<byte>, offset: nat) returns (k: SizeClass)
    requires Varint(payload, offset).Some?
    ensures var read := Varint(payload, offset).value;
            && Fits(read.value, k)
            && offset < read.next <= |payload|
            && payload[offset..read.next] == EncodeVarint(read.value, k)
  {
    hide BigEndian;
    hide Digits;
    hide Power256;
    var first: int := payload[offset];
    k := first / 0x40;
    var size := SizeOf(k);
    assert VarintSize(first) == size;
    var masked: seq<byte> := [first % 0x40] + payload[offset + 1..offset + size];
    NumberBound(masked);
    Monotone(first % 0x40 + 1, 0x40, Power256(size - 1));
    NumberHasDigits(masked);
    assert payload[offset..offset + size] == [first] + payload[offset + 1..offset + size];
  }

  lemma {:induction false} Monotone(a: nat, b: nat, power: nat)
    requires a <= b
    ensures a * power <= b * power
  {
  }

  function TypeOf(first: byte): PacketType {
    match (first / 0x10) % 4
    case 0 => Initial
    case 1 => ZeroRtt
    case 2 => Handshake
    case _ => Retry
  }

  lemma {:induction false} FirstByteWasWritten(p: RawPacket, first: byte)
    requires first >= 0x80
    requires p.packetType == TypeOf(first) && p.fixedBit == ((first / 0x40) % 2 == 1) && p.typeSpecificBits
             == first % 0x10
    ensures p.First() == first
  {
  }

  lemma {:induction false} SplitAt(payload: seq<byte>, a: nat, b: nat)
    requires a <= b <= |payload|
    ensures payload[a..] == payload[a..b] + payload[b..]
  {
  }

  lemma {:induction false} WordWasWritten(payload: seq<byte>, offset: nat)
    requires offset + 4 <= |payload|
    ensures payload[offset..offset + 4] == EncodeBe32(ReadBe32(payload, offset))
  {
  }

  lemma {:induction false} CidWasWritten(payload: seq<byte>, offset: nat)
    requires ReadConnectionId(payload, offset).Some?
    ensures var read := ReadConnectionId(payload, offset).value;
            && read.value.Cid? && |read.value.bytes| <= 20
            && offset + 1 + |read.value.bytes| == read.next <= |payload|
            && payload[offset..] == EncodeCid(read.value.bytes) + payload[read.next..]
  {
  }

  /** A varint and as many bytes as it says. */
  lemma {:induction false} CountedWasWritten(payload: seq<byte>, offset: nat) returns (k: SizeClass, part: seq<byte>)
    requires Varint(payload, offset).Some?
    requires HasBytes(payload, Varint(payload, offset).value.next, Varint(payload, offset).value.value)
    ensures Fits(|part|, k)
    ensures var end := Varint(payload, offset).value.next + Varint(payload, offset).value.value;
            offset <= end <= |payload| && payload[offset..] == EncodeVarint(|part|, k) + part + payload[end..]
  {
    hide Varint;
    hide EncodeVarint;
    hide Fits;
    k := VarintWasWritten(payload, offset);
    var length := Varint(payload, offset).value;
    var end := length.next + length.value;
    part := payload[length.next..end];
    SplitAt(payload, offset, length.next);
    SplitAt(payload, length.next, end);
    RegroupThree(EncodeVarint(|part|, k), part, payload[end..]);
  }

  /** The part of a packet behind its connection IDs. */
  lemma {:induction false} RemainderWasWritten(payload: seq<byte>, offset: nat, packetType: PacketType)
    returns (token: seq<byte>, tokenSize: SizeClass, body: seq<byte>, bodySize: SizeClass, rest: seq<byte>)
    requires offset <= |payload| && !packetType.Retry?
    requires var at := LengthFieldOffset(payload, packetType.Value(), offset);
             && at.Some? && at.value <= |payload| && Varint(payload, at.value).Some?
             && HasBytes(payload, Varint(payload, at.value).value.next, Varint(payload, at.value).value.value)
    ensures packetType.Initial? ==> Fits(|token|, tokenSize)
    ensures Fits(|body|, bodySize)
    ensures payload[offset..]
            == (if packetType.Initial? then EncodeVarint(|token|, tokenSize) + token else [])
               + (EncodeVarint(|body|, bodySize) + body) + rest
  {
    hide Varint;
    hide EncodeVarint;
    hide Fits;
    var at := LengthFieldOffset(payload, packetType.Value(), offset).value;
    bodySize, body := CountedWasWritten(payload, at);
    rest := payload[Varint(payload, at).value.next + Varint(payload, at).value.value..];
    var counted := EncodeVarint(|body|, bodySize) + body;
    token, tokenSize := [], 0;
    if packetType.Initial? {
      tokenSize, token := CountedWasWritten(payload, offset);
      RegroupThree(EncodeVarint(|token|, tokenSize) + token, counted, rest);
    } else {
      assert [] + counted == counted;
    }
  }

  /** The bytes of a packet up to its connection IDs. */
  function FixedPart(first: byte, version: u32, dcid: seq<byte>, scid: seq<byte>): seq<byte>
    requires |dcid| <= 20 && |scid| <= 20
  {
    [first] + EncodeBe32(version) + EncodeCid(dcid) + EncodeCid(scid)
  }

  lemma {:induction false} FixedPartWasWritten(payload: seq<byte>, start: nat)
    returns (first: byte, version: u32, dcid: seq<byte>, scid: seq<byte>, at: nat)
    requires LongHeaderAt(payload, start).Some?
    ensures start <= at <= |payload| && first >= 0x80 && version != 0 && |dcid| <= 20 && |scid| <= 20
    ensures payload[start..] == FixedPart(first, version, dcid, scid) + payload[at..]
    ensures !TypeOf(first).Retry? ==>
              var lengthAt := LengthFieldOffset(payload, TypeOf(first).Value(), at);
              && lengthAt.Some? && lengthAt.value <= |payload| && Varint(payload, lengthAt.value).Some?
              && HasBytes(payload, Varint(payload, lengthAt.value).value.next,
                          Varint(payload, lengthAt.value).value.value)
  {
    hide Varint;
    hide ReadConnectionId;
    hide EncodeCid;
    hide EncodeBe32;
    hide ReadBe32;
    first, version := payload[start], ReadBe32(payload, start + 1);
    var destination := ReadConnectionId(payload, start + 5).value;
    var source := ReadConnectionId(payload, destination.next).value;
    SplitAt(payload, start, start + 1);
    SplitAt(payload, start + 1, start + 5);
    WordWasWritten(payload, start + 1);
    CidWasWritten(payload, start + 5);
    CidWasWritten(payload, destination.next);
    dcid, scid, at := destination.value.bytes, source.value.bytes, source.next;
    RegroupFive([first], EncodeBe32(version), EncodeCid(dcid), EncodeCid(scid), payload[at..]);
  }

  lemma {:induction false} RegroupFive<T>(a: seq<T>, b: seq<T>, c: seq<T>, d: seq<T>, e: seq<T>)
    ensures a + (b + (c + (d + e))) == a + b + c + d + e
  {
  }

  /** Every long header that parses is that of a packet serialized there. */
  lemma {:induction false} PacketWasWritten(payload: seq<byte>, start: nat) returns (p: RawPacket, rest: seq<byte>)
    requires LongHeaderAt(payload, start).Some?
    ensures ValidPacket(p) && start <= |payload| && payload[start..] == EncodePacket(p) + rest
    ensures p.packetType.Retry? ==> rest == []
  {
    hide LongHeaderAt;
    hide Varint;
    hide EncodeVarint;
    hide Fits;
    hide EncodeCid;
    hide EncodeBe32;
    hide RawPacket.First;
    var first, version, dcid, scid, at := FixedPartWasWritten(payload, start);
    var packetType, fixedBit := TypeOf(first), (first / 0x40) % 2 == 1;
    var token, tokenSize, body, bodySize := [], 0, payload[at..], 0;
    rest := [];
    if !packetType.Retry? {
      token, tokenSize, body, bodySize, rest := RemainderWasWritten(payload, at, packetType);
    }
    p := RawPacket(packetType, fixedBit, first % 0x10, version, dcid, scid, token, tokenSize, body, bodySize);
    FirstByteWasWritten(p, first);
    RegroupThree(FixedPart(first, version, dcid, scid), EncodeRemainder(p), rest);
  }

  /** The walk over a datagram that it does not find malformed found the packets of which the datagram consists. */
  lemma {:induction false} DatagramWasWritten(payload: seq<byte>, start: nat)
    returns (packets: seq<RawPacket>, tail: seq<byte>)
    requires start <= |payload| && !Walk(payload, start).malformed
    ensures ValidDatagram(packets, tail)
    ensures forall p :: p in packets ==> ValidPacket(p)
    ensures payload[start..] == EncodePackets(packets) + tail
    decreases |payload| - start
  {
    hide LongHeaderAt;
    hide EncodePacket;
    hide ValidPacket;
    if start == |payload| || !IsLongHeader(payload[start]) {
      packets, tail := [], payload[start..];
    } else {
      var p, rest := PacketWasWritten(payload, start);
      PacketRoundTrip(payload, start, p, rest);
      DropHead(payload, start, EncodePacket(p), rest);
      LongHeaderSize(payload, start);
      var next := start + |EncodePacket(p)|;
      var others;
      others, tail := DatagramWasWritten(payload, next);
      packets := [p] + others;
      RegroupThree(EncodePacket(p), EncodePackets(others), tail);
      ValidCons(p, others, tail);
      assert packets[1..] == others;
      if p.packetType.Retry? {
        NothingLeft(others, tail);
      }
    }
  }

  lemma {:induction false} NothingLeft(packets: seq<RawPacket>, tail: seq<byte>)
    requires ValidDatagram(packets, tail)
    requires EncodePackets(packets) + tail == []
    ensures packets == [] && tail == []
  {
    if packets != [] {
      ValidFirst(packets, tail);
    }
  }

  lemma {:induction false} ValidCons(p: RawPacket, others: seq<RawPacket>, tail: seq<byte>)
    requires ValidPacket(p) && ValidDatagram(others, tail)
    ensures (p.packetType.Retry? ==> others == [] && tail == []) ==> ValidDatagram([p] + others, tail)
    ensures forall q :: q in [p] + others ==> ValidPacket(q)
  {
    hide ValidPacket;
    var all := [p] + others;
    assert forall i :: 0 < i < |all| ==> all[i] == others[i - 1];
  }

  // ---------------------------------------------------------------------------------------------
  // Verdicts

  /** The payload consists of these long-header packets and this tail. */
  ghost predicate Splits(payload: seq<byte>, packets: seq<RawPacket>, tail: seq<byte>) {
    ValidDatagram(packets, tail) && payload == EncodePackets(packets) + tail
  }

  /** A datagram is malformed exactly if it cannot be split into packets. */
  lemma {:induction false} MalformedIffNoSplit(payload: seq<byte>)
    ensures Walk(payload, 0).malformed <==> !exists packets, tail :: Splits(payload, packets, tail)
  {
    hide ValidDatagram;
    hide EncodePackets;
    hide Walk;
    assert payload[0..] == payload;
    if !Walk(payload, 0).malformed {
      var packets, tail := DatagramWasWritten(payload, 0);
      assert Splits(payload, packets, tail);
    }
    if packets, tail :| Splits(payload, packets, tail) {
      CoalescedRoundTrip(payload, 0, packets, tail);
    }
  }

  /** The last source connection ID in a list of packets that is not empty, or the empty one. */
  function LastSource(packets: seq<RawPacket>): seq<byte> {
    if packets == [] then []
    else
      var later := LastSource(packets[1..]);
      if later != [] then later else packets[0].scid
  }

  lemma {:induction false} LastSourceIsTaught(packets: seq<RawPacket>)
    requires forall p :: p in packets ==> ValidPacket(p)
    ensures LastScid(InfosOf(packets))
            == if LastSource(packets) == [] then UnknownCid else Cid(LastSource(packets))
  {
    hide ValidPacket;
    hide EncodePacket;
    if packets != [] {
      LastSourceIsTaught(packets[1..]);
      assert packets[0] in packets;
      assert InfosOf(packets)[1..] == InfosOf(packets[1..]);
    }
  }

  /** The verdict on what follows the packets of a datagram, if the ID `expected` is known of its receiver. */
  function TailVerdict(
    packets: seq<RawPacket>, head: nat, tail: seq<byte>, expected: ConnectionId, options: QuicOptions): Verdict {
    if tail == [] then Verdict(if packets == [] then NotApplicable else LongHeader, 0)
    else if tail[0] < 0x40 then Verdict(if packets == [] then NotApplicable else MalformedFallback, 0)
    else
      match expected
      case UnknownCid =>
        if options.allowShortHeaderWithoutKnownDcid && !options.requireDcidMatch
        then Verdict(ShortHeaderMatched, head + Min(|tail|, Max(1, options.shortHeaderKeepPacketBytes)))
        else Verdict(UnknownCidFallback, 0)
      case Cid(cid) =>
        if |tail[1..]| < |cid| then Verdict(MalformedFallback, 0)
        else if cid <= tail[1..]
        then Verdict(ShortHeaderMatched, head + Min(|tail|, Max(1 + |cid|, options.shortHeaderKeepPacketBytes)))
        else Verdict(DcidMismatchFallback, 0)
  }

  /** The verdict on every datagram, and what it teaches, from the packets in it and what is behind them. */
  lemma {:induction false} DatagramVerdict(
    table: FlowTable, d: Datagram, packets: seq<RawPacket>, tail: seq<byte>, options: QuicOptions)
    requires d.WellFormed() && Splits(d.payload, packets, tail)
    ensures TableStep(table, d, options).1
            == TailVerdict(packets, |d.payload| - |tail|, tail, ExpectedCid(table, d), options)
    ensures Taught(d) == if LastSource(packets) == [] then UnknownCid else Cid(LastSource(packets))
  {
    hide ValidPacket;
    hide EncodePackets;
    hide Datagram.WellFormed;
    hide TableStep;
    hide Walk;
    hide Learned;
    hide CanonicalFlow;
    hide JudgeTail;
    hide TailVerdict;
    hide ReceiverCid;
    hide LastScid;
    assert d.payload[0..] == d.payload;
    CoalescedRoundTrip(d.payload, 0, packets, tail);
    LastSourceIsTaught(packets);
    StepInPhases(table, d, options);
    var infos := Walk(d.payload, 0).headers;
    KeepsReceiver(EntryOf(table, d.Key()), d.Direction(), infos);
    TailIsJudged(packets, d.payload, |d.payload| - |tail|, tail, ExpectedCid(table, d), options);
    InfosCount(packets);
  }

  lemma {:induction false} InfosCount(packets: seq<RawPacket>)
    requires forall p :: p in packets ==> ValidPacket(p)
    ensures InfosOf(packets) == [] <==> packets == []
  {
    hide ValidPacket;
  }

  lemma {:induction false} TailIsJudged(
    packets: seq<RawPacket>, payload: seq<byte>, head: nat, tail: seq<byte>, expected: ConnectionId,
    options: QuicOptions)
    requires head <= |payload| && payload[head..] == tail && (tail != [] ==> tail[0] < 0x80)
    ensures JudgeTail(payload, head, packets != [], expected, options)
            == TailVerdict(packets, head, tail, expected, options)
  {
    if tail != [] {
      assert payload[head] == tail[0];
    }
    if expected.Cid? && 1 + |expected.bytes| <= |tail| {
      var size := |expected.bytes|;
      assert payload[head + 1..head + 1 + size] == tail[1..][..size];
    }
  }

  /** A datagram that cannot be split is left whole. */
  lemma {:induction false} UnsplitVerdict(table: FlowTable, d: Datagram, options: QuicOptions)
    requires d.WellFormed() && !exists packets, tail :: Splits(d.payload, packets, tail)
    ensures TableStep(table, d, options).1 == Verdict(MalformedFallback, 0)
  {
    hide Datagram.WellFormed;
    hide Splits;
    hide TableStep;
    hide Walk;
    hide Learned;
    hide CanonicalFlow;
    MalformedIffNoSplit(d.payload);
    StepInPhases(table, d, options);
  }

  lemma {:induction false} WalkOn(payload: seq<byte>, start: nat)
    requires LongHeaderAt(payload, start).Some? && start < |payload| && IsLongHeader(payload[start])
    ensures var header := LongHeaderAt(payload, start).value;
            var behind := Walk(payload, start + header.totalSize);
            Walk(payload, start) == behind.(headers := [header] + behind.headers)
  {
    hide LongHeaderAt;
    LongHeaderSize(payload, start);
  }

  /** A datagram that only begins with packets still teaches them, also if what follows is malformed. */
  lemma {:induction false} BeginningIsWalked(payload: seq<byte>, start: nat, packets: seq<RawPacket>, rest: seq<byte>)
    requires forall p :: p in packets ==> ValidPacket(p) && !p.packetType.Retry?
    requires start <= |payload| && payload[start..] == EncodePackets(packets) + rest
    ensures var behind := Walk(payload, |payload| - |rest|);
            Walk(payload, start) == behind.(headers := InfosOf(packets) + behind.headers)
    decreases |packets|
  {
    hide LongHeaderAt;
    hide EncodePacket;
    hide ValidPacket;
    hide Walk;
    if packets == [] {
      assert InfosOf(packets) + Walk(payload, start).headers == Walk(payload, start).headers;
    } else {
      var p, others := packets[0], packets[1..];
      assert p in packets;
      var behind := EncodePackets(others) + rest;
      RegroupThree(EncodePacket(p), EncodePackets(others), rest);
      FirstByte(payload, start, p, behind);
      PacketRoundTrip(payload, start, p, behind);
      WalkOn(payload, start);
      DropHead(payload, start, EncodePacket(p), behind);
      BeginningIsWalked(payload, start + |EncodePacket(p)|, others, rest);
      RegroupThree([InfoOf(p)], InfosOf(others), Walk(payload, |payload| - |rest|).headers);
    }
  }
}
