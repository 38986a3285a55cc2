/** Every packet and what decoding makes of it: which packets are frames at all, and why the others are refused. The
    reasons are read off the bytes of each layer, from its first byte on. */
module PacketOutcomes {
  import opened Bytes
  import opened PacketDecode
  import opened PacketFrames

  // ---------------------------------------------------------------------------------------------
  // Why a layer is refused

  /** What is wrong with the bytes of an IP packet behind its header, if they should be a TCP segment. */
  function TcpProblem(body: seq<byte>): FailureReason {
    if |body| < 20 then TruncatedTcpHeader
    else if body[12] < 0x50 then InvalidTcpDataOffset
    else if |body| < 4 * (body[12] / 0x10) then TruncatedTcpHeader
    else NoFailure
  }

  function UdpProblem(body: seq<byte>): FailureReason {
    if |body| < 8 then TruncatedUdpHeader
    else if ReadBe16(body, 4) < 8 then InvalidUdpLength
    else if |body| < ReadBe16(body, 4) then TruncatedUdpPayload
    else NoFailure
  }

  function TransportProblem(protocol: byte, body: seq<byte>): FailureReason {
    if protocol == 6 then TcpProblem(body) else if protocol == 17 then UdpProblem(body) else NoFailure
  }

  /** What is wrong with the header of an IPv4 packet and its total length. */
  function Ip4Problem(bytes: seq<byte>): FailureReason {
    if |bytes| < 20 then TruncatedIpv4Header
    else if bytes[0] < 0x45 || bytes[0] > 0x4F then InvalidIpv4Ihl
    else if |bytes| < Ip4HeaderLength(bytes) then TruncatedIpv4Header
    else if ReadBe16(bytes, 2) < Ip4HeaderLength(bytes) then InvalidIpv4TotalLength
    else if |bytes| < ReadBe16(bytes, 2) then TruncatedIpv4Packet
    else NoFailure
  }

  function Ip4HeaderLength(bytes: seq<byte>): nat
    requires |bytes| > 0
  {
    4 * (bytes[0] % 0x10)
  }

  /** What is wrong with the header of an IPv6 packet and its payload length. */
  function Ip6Problem(bytes: seq<byte>): FailureReason {
    if |bytes| < 40 || bytes[0] < 0x60 || bytes[0] > 0x6F then TruncatedIpv6Header
    else if |bytes| < 40 + ReadBe16(bytes, 4) then TruncatedIpv6Packet
    else NoFailure
  }

  // ---------------------------------------------------------------------------------------------
  // The transport layer

  lemma {:induction false} SplitAt(bytes: seq<byte>, a: nat, b: nat)
    requires a <= b <= |bytes|
    ensures bytes[a..] == bytes[a..b] + bytes[b..]
  {
  }

  lemma {:induction false} WordWasWritten(bytes: seq<byte>, at: nat)
    requires at + 2 <= |bytes|
    ensures bytes[at..] == Be16(ReadBe16(bytes, at)) + bytes[at + 2..]
  {
  }

  lemma {:induction false} LongWasWritten(bytes: seq<byte>, at: nat)
    requires at + 4 <= |bytes|
    ensures bytes[at..] == Be32(ReadBe32(bytes, at)) + bytes[at + 4..]
  {
    var high, low := ReadBe16(bytes, at), ReadBe16(bytes, at + 2);
    assert ReadBe32(bytes, at) / 0x1_0000 == high && ReadBe32(bytes, at) % 0x1_0000 == low;
    WordWasWritten(bytes, at);
    WordWasWritten(bytes, at + 2);
  }

  lemma {:induction false} TcpWordsWereWritten(body: seq<byte>)
    requires |body| >= 12
    ensures body == Be16(ReadBe16(body, 0)) + (Be16(ReadBe16(body, 2)) + (Be32(ReadBe32(body, 4))
                    + (Be32(ReadBe32(body, 8)) + body[12..])))
  {
    hide Be16;
    hide Be32;
    hide ReadBe16;
    hide ReadBe32;
    assert body[0..] == body;
    WordWasWritten(body, 0);
    WordWasWritten(body, 2);
    LongWasWritten(body, 4);
    LongWasWritten(body, 8);
  }

  lemma {:induction false} TcpRestWasWritten(body: seq<byte>, size: nat)
    requires 20 <= size <= |body|
    ensures body[12..] == [body[12], body[13]] + (body[14..20] + body[20..size] + body[size..])
  {
    SplitAt(body, 12, 14);
    SplitAt(body, 14, 20);
    SplitAt(body, 20, size);
    assert body[12..14] == [body[12], body[13]];
    GroupThree(body[14..20], body[20..size], body[size..]);
  }

  /** Bytes without a problem are a TCP segment. */
  lemma {:induction false} SegmentWasWritten(body: seq<byte>) returns (t: Transport)
    requires TcpProblem(body) == NoFailure
    ensures t.TcpSegment? && t.Valid() && t.Encode() == body
  {
    hide Be16;
    hide Be32;
    hide ReadBe16;
    hide ReadBe32;
    hide Transport.Encode;
    var size := 4 * (body[12] / 0x10);
    t := TcpSegment(ReadBe16(body, 0), ReadBe16(body, 2), ReadBe32(body, 4), ReadBe32(body, 8), body[12] % 0x10,
                    body[13], body[14..20], body[20..size], body[size..]);
    TcpWordsWereWritten(body);
    TcpRestWasWritten(body, size);
    Nibbles(body[12]);
    TcpEncoding(t);
  }

  lemma {:induction false} Nibbles(x: byte)
    ensures x / 0x10 * 0x10 + x % 0x10 == x
  {
  }

  lemma {:induction false} GroupThree(a: seq<byte>, b: seq<byte>, c: seq<byte>)
    ensures a + b + c == a + (b + c)
  {
  }

  /** Bytes without a problem are a UDP datagram, perhaps with slack behind it. */
  lemma {:induction false} DatagramWasWritten(body: seq<byte>) returns (t: Transport)
    requires UdpProblem(body) == NoFailure
    ensures t.UdpDatagram? && t.Valid() && t.Encode() == body
  {
    hide Be16;
    hide ReadBe16;
    var size := ReadBe16(body, 4);
    t := UdpDatagram(ReadBe16(body, 0), ReadBe16(body, 2), ReadBe16(body, 6), body[8..size], body[size..]);
    assert body[0..] == body;
    WordWasWritten(body, 0);
    WordWasWritten(body, 2);
    WordWasWritten(body, 4);
    WordWasWritten(body, 6);
    SplitAt(body, 8, size);
    GroupThree(Be16(t.checksum), t.payload, t.slack);
  }

  /** The transport layer refuses exactly what has a problem, for that reason. */
  lemma {:induction false} TransportReason(
    result: PacketDecodeResult, packet: seq<byte>, offset: nat, body: seq<byte>)
    requires Holds(packet, offset, body) && result.failureReason == NoFailure
    ensures var decoded := TransportDecoded(result, packet, offset, offset + |body|);
            var problem := TransportProblem(result.ipProtocol, body);
            && decoded.failureReason == problem
            && (problem != NoFailure ==> decoded == result.Fail(problem))
            && (result.ipProtocol != 6 && result.ipProtocol != 17 ==> decoded == result)
            && (result.transportProtocol == NoTransport && problem == NoFailure ==>
                  (decoded.transportProtocol != NoTransport <==> result.ipProtocol == 6 || result.ipProtocol == 17))
  {
    if |body| >= 20 {
      assert packet[offset..offset + |body|][12] == packet[offset + 12];
    }
    if |body| >= 8 {
      assert packet[offset..offset + |body|][4] == packet[offset + 4];
      assert packet[offset..offset + |body|][5] == packet[offset + 5];
    }
  }

  // ---------------------------------------------------------------------------------------------
  // The network layer

  lemma {:induction false} Ip4WordsWereWritten(bytes: seq<byte>)
    requires |bytes| >= 12
    ensures bytes == [bytes[0], bytes[1]] + (Be16(ReadBe16(bytes, 2)) + (Be16(ReadBe16(bytes, 4))
                     + (Be16(ReadBe16(bytes, 6)) + ([bytes[8], bytes[9]] + (Be16(ReadBe16(bytes, 10)) + bytes[12..])))))
  {
    hide Be16;
    hide ReadBe16;
    assert bytes[0..] == bytes;
    SplitAt(bytes, 0, 2);
    WordWasWritten(bytes, 2);
    WordWasWritten(bytes, 4);
    WordWasWritten(bytes, 6);
    SplitAt(bytes, 8, 10);
    WordWasWritten(bytes, 10);
    assert bytes[0..2] == [bytes[0], bytes[1]] && bytes[8..10] == [bytes[8], bytes[9]];
  }

  lemma {:induction false} Ip4RestWasWritten(bytes: seq<byte>, size: nat, total: nat)
    requires 20 <= size <= total <= |bytes|
    ensures bytes[12..]
            == bytes[12..16] + (bytes[16..20] + (bytes[20..size] + (bytes[size..total] + bytes[total..])))
  {
    SplitAt(bytes, 12, 16);
    SplitAt(bytes, 16, 20);
    SplitAt(bytes, 20, size);
    SplitAt(bytes, size, total);
  }

  /** Bytes without a problem are an IPv4 packet, whole or a fragment, and what follows it. */
  lemma {:induction false} Ip4WasWritten(bytes: seq<byte>) returns (ip: Network, body: seq<byte>, trailer: seq<byte>)
    requires Ip4Problem(bytes) == NoFailure
    ensures ip.Ip4? && ValidIp(ip, body) && bytes == ip.Encode(bytes[9], body) + trailer
  {
    hide Be16;
    hide ReadBe16;
    hide Network.Encode;
    hide Network.Flags;
    var size, total, flags := Ip4HeaderLength(bytes), ReadBe16(bytes, 2), ReadBe16(bytes, 6);
    ip := Ip4(bytes[1], ReadBe16(bytes, 4), flags / 0x8000 == 1, flags / 0x4000 % 2 == 1, flags / 0x2000 % 2 == 1,
              flags % 0x2000, bytes[8], ReadBe16(bytes, 10), bytes[12..16], bytes[16..20], bytes[20..size]);
    body, trailer := bytes[size..total], bytes[total..];
    FlagsWereWritten(ip, flags);
    Ip4WordsWereWritten(bytes);
    Ip4RestWasWritten(bytes, size, total);
    assert bytes[0] == 4 * 16 + 5 + |ip.options| / 4;
    Ip4Encoding(ip, bytes[9], body);
    Ip4Regroup([bytes[0], ip.tos], Be16(20 + |ip.options| + |body|), Be16(ip.id), Be16(ip.Flags()),
               [ip.ttl, bytes[9]], Be16(ip.checksum), ip.src, ip.dst, ip.options, body, trailer);
  }

  lemma {:induction false} FlagsWereWritten(ip: Network, flags: u16)
    requires ip.Ip4? && ip.reserved == (flags / 0x8000 == 1) && ip.dontFragment == (flags / 0x4000 % 2 == 1)
    requires ip.moreFragments == (flags / 0x2000 % 2 == 1) && ip.fragmentOffset == flags % 0x2000
    ensures ip.fragmentOffset < 0x2000 && ip.Flags() == flags
  {
  }

  lemma {:induction false} Ip4Regroup(
    a: seq<byte>, b: seq<byte>, c: seq<byte>, d: seq<byte>, e: seq<byte>, f: seq<byte>, g: seq<byte>, h: seq<byte>,
    i: seq<byte>, j: seq<byte>, k: seq<byte>)
    ensures a + (b + (c + (d + (e + (f + (g + (h + (i + (j + k)))))))))
            == a + (b + (c + (d + (e + (f + (g + (h + (i + j)))))))) + k
  {
  }

  /** Bytes without a problem are an IPv6 packet and what follows it. */
  lemma {:induction false} Ip6WasWritten(bytes: seq<byte>) returns (ip: Network, body: seq<byte>, trailer: seq<byte>)
    requires Ip6Problem(bytes) == NoFailure
    ensures ip.Ip6? && ValidIp(ip, body) && bytes == ip.Encode(bytes[6], body) + trailer
  {
    hide Be16;
    hide ReadBe16;
    var end := 40 + ReadBe16(bytes, 4);
    ip := Ip6(bytes[0..4], bytes[7], bytes[8..24], bytes[24..40]);
    body, trailer := bytes[40..end], bytes[end..];
    assert bytes[0..] == bytes;
    SplitAt(bytes, 0, 4);
    WordWasWritten(bytes, 4);
    SplitAt(bytes, 6, 8);
    SplitAt(bytes, 8, 24);
    SplitAt(bytes, 24, 40);
    SplitAt(bytes, 40, end);
    assert bytes[6..8] == [bytes[6], bytes[7]];
    Ip6Regroup(ip.flow, Be16(|body|), [bytes[6], bytes[7]], ip.src, ip.dst, body, trailer);
  }

  lemma {:induction false} Ip6Regroup(
    a: seq<byte>, b: seq<byte>, c: seq<byte>, d: seq<byte>, e: seq<byte>, f: seq<byte>, g: seq<byte>)
    ensures a + (b + (c + (d + (e + (f + g))))) == a + (b + (c + (d + (e + f)))) + g
  {
  }

  /** The network layer refuses a header exactly for its problem. */
  lemma {:induction false} HeaderReason(result: PacketDecodeResult, packet: seq<byte>, offset: nat, bytes: seq<byte>)
    requires offset <= |packet| && packet[offset..] == bytes
    ensures Ip4Problem(bytes) != NoFailure ==> Ipv4Decoded(result, packet, offset) == result.Fail(Ip4Problem(bytes))
    ensures Ip6Problem(bytes) != NoFailure ==> Ipv6Decoded(result, packet, offset) == result.Fail(Ip6Problem(bytes))
  {
    hide TransportDecoded;
    hide Ipv4Header;
    hide Ipv6Header;
    assert forall i :: 0 <= i < |bytes| ==> packet[offset + i] == bytes[i];
  }

  // ---------------------------------------------------------------------------------------------
  // The link layer

  lemma {:induction false} TypesWereWritten(packet: seq<byte>, at: nat)
    returns (tags: seq<VlanTag>, ethertype: u16, bytes: seq<byte>)
    requires at + 2 <= |packet|
    ensures forall tag :: tag in tags ==> IsTagType(tag.tpid)
    ensures packet[at..] == TypeBytes(tags, ethertype) + bytes
    ensures IsTagType(ethertype) ==> |bytes| < 4
    decreases |packet| - at
  {
    hide Be16;
    hide ReadBe16;
    WordWasWritten(packet, at);
    var first := ReadBe16(packet, at);
    if IsTagType(first) && at + 6 <= |packet| {
      WordWasWritten(packet, at + 2);
      var others;
      others, ethertype, bytes := TypesWereWritten(packet, at + 4);
      var tag := VlanTag(first, ReadBe16(packet, at + 2));
      tags := [tag] + others;
      assert tags[1..] == others;
      GroupThree(Be16(tag.tpid), Be16(tag.tci) + TypeBytes(others, ethertype), bytes);
      GroupThree(Be16(tag.tci), TypeBytes(others, ethertype), bytes);
    } else {
      tags, ethertype, bytes := [], first, packet[at + 2..];
    }
  }

  /** Every packet of 14 bytes or more is a frame around some bytes, unless it ends inside a tag. */
  lemma {:induction false} LinkWasWritten(packet: seq<byte>)
    returns (macs: seq<byte>, tags: seq<VlanTag>, ethertype: u16, bytes: seq<byte>)
    requires |packet| >= 14
    ensures ValidLink(macs, tags) && packet == LinkFrame(macs, tags, ethertype, bytes)
    ensures IsTagType(ethertype) ==> |bytes| < 4
  {
    macs := packet[..12];
    tags, ethertype, bytes := TypesWereWritten(packet, 12);
    assert packet == packet[..12] + packet[12..];
  }

  /** Tags are stripped one by one, down to the one that is cut off. */
  lemma {:induction false} CutTagIsFound(
    result: PacketDecodeResult, packet: seq<byte>, offset: nat, tags: seq<VlanTag>, ethertype: u16)
    requires offset >= 2 && Holds(packet, offset - 2, TypeBytes(tags, ethertype))
    requires HasBytes(packet, offset - 2, 2) && result.ethertype == ReadBe16(packet, offset - 2)
    requires (forall tag :: tag in tags ==> IsTagType(tag.tpid)) && IsTagType(ethertype)
    requires |packet| < offset + 4 * |tags| + 4
    ensures StripTags(result, packet, offset) == AfterTags(result, |tags|, ethertype).Fail(TruncatedVlanTag)
    decreases |tags|
  {
    hide Be16;
    hide ReadBe16;
    hide Holds;
    hide IsVlanEthertype;
    hide IsTagType;
    hide StripTags;
    hide StripTag;
    hide AfterTags;
    TagTypes(result.ethertype);
    if tags == [] {
      HoldsBe16(packet, offset - 2, ethertype);
      NoTags(result);
      CutTagFails(result, packet, offset);
    } else {
      StripOne(result, packet, offset);
      var rest := TypeBytes(tags[1..], ethertype);
      HoldsParts(packet, offset - 2, Be16(tags[0].tpid), Be16(tags[0].tci) + rest);
      HoldsBe16(packet, offset - 2, tags[0].tpid);
      HoldsParts(packet, offset, Be16(tags[0].tci), rest);
      Size(packet, offset + 2, rest);
      assert tags[0] in tags;
      OneMore(result, packet, offset, |tags| - 1, ethertype);
      CutTagIsFound(StripTag(result, packet, offset), packet, offset + 4, tags[1..], ethertype);
    }
  }

  lemma {:induction false} CutTagFails(result: PacketDecodeResult, packet: seq<byte>, offset: nat)
    requires IsVlanEthertype(result.ethertype) && |packet| < offset + 4
    ensures StripTags(result, packet, offset) == result.Fail(TruncatedVlanTag)
  {
  }

  // ---------------------------------------------------------------------------------------------
  // Every packet

  /** Why an IP packet with a good header is refused, if it is. */
  function IpReason(ip: Network, protocol: byte, body: seq<byte>): FailureReason {
    if ip.Ip6? && IsExtension(protocol) then UnsupportedIpv6ExtensionHeaders
    else if ip.IsFragment() then NoFailure
    else TransportProblem(protocol, body)
  }

  /** What a packet can be: less than an Ethernet header; a frame that ends inside a tag; one of another EtherType than
      IP; one with a bad IP header; one with an IP packet that is not a whole TCP or UDP packet; or one with a TCP
      segment or UDP datagram. */
  datatype Form =
    | TooShort(bytes: seq<byte>)
    | CutTag(macs: seq<byte>, tags: seq<VlanTag>, ethertype: u16, bytes: seq<byte>)
    | NoIpPacket(macs: seq<byte>, tags: seq<VlanTag>, ethertype: u16, bytes: seq<byte>)
    | BadIp4(macs: seq<byte>, tags: seq<VlanTag>, bytes: seq<byte>)
    | BadIp6(macs: seq<byte>, tags: seq<VlanTag>, bytes: seq<byte>)
    | IpPacket(macs: seq<byte>, tags: seq<VlanTag>, ip: Network, protocol: byte, body: seq<byte>, trailer: seq<byte>)
    | Whole(macs: seq<byte>, tags: seq<VlanTag>, ip: Network, transport: Transport, trailer: seq<byte>)
  {
    ghost predicate Valid() {
      match this
      case TooShort(bytes) => |bytes| < 14
      case CutTag(macs, tags, ethertype, bytes) => ValidLink(macs, tags) && IsTagType(ethertype) && |bytes| < 4
      case NoIpPacket(macs, tags, ethertype, bytes) =>
        ValidLink(macs, tags) && !IsTagType(ethertype) && ethertype != 0x0800 && ethertype != 0x86DD
      case BadIp4(macs, tags, bytes) => ValidLink(macs, tags) && Ip4Problem(bytes) != NoFailure
      case BadIp6(macs, tags, bytes) => ValidLink(macs, tags) && Ip6Problem(bytes) != NoFailure
      case IpPacket(macs, tags, ip, protocol, body, trailer) =>
        && ValidLink(macs, tags) && ValidIp(ip, body)
        && (IpReason(ip, protocol, body) != NoFailure || ip.IsFragment() || (protocol != 6 && protocol != 17))
      case Whole(macs, tags, ip, transport, trailer) =>
        ValidFrame(macs, tags, ip, transport)
    }

    function Bytes(): seq<byte>
      requires Valid()
    {
      match this
      case TooShort(bytes) => bytes
      case CutTag(macs, tags, ethertype, bytes) => LinkFrame(macs, tags, ethertype, bytes)
      case NoIpPacket(macs, tags, ethertype, bytes) => LinkFrame(macs, tags, ethertype, bytes)
      case BadIp4(macs, tags, bytes) => LinkFrame(macs, tags, 0x0800, bytes)
      case BadIp6(macs, tags, bytes) => LinkFrame(macs, tags, 0x86DD, bytes)
      case IpPacket(macs, tags, ip, protocol, body, trailer) => IpFrame(macs, tags, ip, protocol, body, trailer)
      case Whole(macs, tags, ip, transport, trailer) => Frame(macs, tags, ip, transport, trailer)
    }

    /** What decoding must report. */
    function Outcome(): PacketDecodeResult
      requires Valid()
    {
      match this
      case TooShort(bytes) => EMPTY_RESULT.Fail(TruncatedEthernetHeader)
      case CutTag(macs, tags, ethertype, bytes) => DecodedLink(|tags|, ethertype).Fail(TruncatedVlanTag)
      case NoIpPacket(macs, tags, ethertype, bytes) => DecodedLink(|tags|, ethertype)
      case BadIp4(macs, tags, bytes) => DecodedLink(|tags|, 0x0800).Fail(Ip4Problem(bytes))
      case BadIp6(macs, tags, bytes) => DecodedLink(|tags|, 0x86DD).Fail(Ip6Problem(bytes))
      case IpPacket(macs, tags, ip, protocol, body, trailer) =>
        var header := WithNetwork(DecodedLink(|tags|, Ethertype(ip)), ip, protocol, 14 + 4 * |tags|);
        var reason := IpReason(ip, protocol, body);
        if reason == NoFailure then header else header.Fail(reason)
      case Whole(macs, tags, ip, transport, trailer) => DecodedFrame(tags, ip, transport)
    }
  }

  lemma {:induction false} IpPacketOutcome(
    result: PacketDecodeResult, packet: seq<byte>, offset: nat, ip: Network, protocol: byte, body: seq<byte>)
    requires ValidIp(ip, body) && Holds(packet, offset, ip.Encode(protocol, body))
    requires result.ethertype == Ethertype(ip) && result.failureReason == NoFailure
    ensures var header, reason := WithNetwork(result, ip, protocol, offset), IpReason(ip, protocol, body);
            && (reason != NoFailure ==> NetworkDecoded(result, packet, offset) == header.Fail(reason))
            && (reason == NoFailure && (ip.IsFragment() || (protocol != 6 && protocol != 17)) ==>
                  NetworkDecoded(result, packet, offset) == header)
  {
    hide Holds;
    hide NetworkDecoded;
    hide TransportDecoded;
    hide TransportProblem;
    hide WithNetwork;
    hide Network.Encode;
    IpRoundTrip(result, packet, offset, ip, protocol, body);
    var header := WithNetwork(result, ip, protocol, offset);
    HeaderFields(result, ip, protocol, offset);
    TransportReason(header, packet, offset + ip.HeaderLength(), body);
  }

  lemma {:induction false} HeaderFields(result: PacketDecodeResult, ip: Network, protocol: byte, offset: nat)
    requires ip.Valid()
    ensures WithNetwork(result, ip, protocol, offset).ipProtocol == protocol
    ensures WithNetwork(result, ip, protocol, offset).failureReason == result.failureReason
  {
  }

  lemma {:induction false} CutTagOutcome(macs: seq<byte>, tags: seq<VlanTag>, ethertype: u16, bytes: seq<byte>)
    requires ValidLink(macs, tags) && IsTagType(ethertype) && |bytes| < 4
    ensures Decoded(LinkFrame(macs, tags, ethertype, bytes)) == DecodedLink(|tags|, ethertype).Fail(TruncatedVlanTag)
  {
    hide StripTags;
    hide NetworkDecoded;
    hide TypeBytes;
    hide Be16;
    hide ReadBe16;
    hide Holds;
    var packet, types := LinkFrame(macs, tags, ethertype, bytes), TypeBytes(tags, ethertype);
    WholePacket(packet);
    HoldsParts(packet, 0, macs, types + bytes);
    HoldsParts(packet, 12, types, bytes);
    Size(packet, 12, types);
    CutTagIsFound(EthernetHeader(packet), packet, 14, tags, ethertype);
  }

  lemma {:induction false} BadHeaderOutcome(macs: seq<byte>, tags: seq<VlanTag>, bytes: seq<byte>)
    requires ValidLink(macs, tags)
    ensures Ip4Problem(bytes) != NoFailure ==>
              Decoded(LinkFrame(macs, tags, 0x0800, bytes)) == DecodedLink(|tags|, 0x0800).Fail(Ip4Problem(bytes))
    ensures Ip6Problem(bytes) != NoFailure ==>
              Decoded(LinkFrame(macs, tags, 0x86DD, bytes)) == DecodedLink(|tags|, 0x86DD).Fail(Ip6Problem(bytes))
  {
    hide Decoded;
    hide Ipv4Decoded;
    hide Ipv6Decoded;
    hide Ip4Problem;
    hide Ip6Problem;
    var at := 14 + 4 * |tags|;
    LinkRoundTrip(macs, tags, 0x0800, bytes);
    LinkRoundTrip(macs, tags, 0x86DD, bytes);
    HeaderReason(DecodedLink(|tags|, 0x0800), LinkFrame(macs, tags, 0x0800, bytes), at, bytes);
    HeaderReason(DecodedLink(|tags|, 0x86DD), LinkFrame(macs, tags, 0x86DD, bytes), at, bytes);
  }

  /** The form of a packet decides what decoding reports, in every field. */
  lemma {:induction false} FormDecides(form: Form)
    requires form.Valid()
    ensures Decoded(form.Bytes()) == form.Outcome()
  {
    hide Decoded;
    hide DecodedLink;
    hide DecodedFrame;
    hide NetworkDecoded;
    hide WithNetwork;
    hide LinkFrame;
    hide Ip4Problem;
    hide Ip6Problem;
    hide IpReason;
    hide Network.Encode;
    hide Holds;
    match form
    case TooShort(bytes) => TooShortOutcome(bytes);
    case CutTag(macs, tags, ethertype, bytes) => CutTagOutcome(macs, tags, ethertype, bytes);
    case NoIpPacket(macs, tags, ethertype, bytes) =>
      LinkRoundTrip(macs, tags, ethertype, bytes);
      LinkFields(|tags|, ethertype);
      NoIpOutcome(DecodedLink(|tags|, ethertype), LinkFrame(macs, tags, ethertype, bytes), 14 + 4 * |tags|);
    case BadIp4(macs, tags, bytes) => BadHeaderOutcome(macs, tags, bytes);
    case BadIp6(macs, tags, bytes) => BadHeaderOutcome(macs, tags, bytes);
    case IpPacket(macs, tags, ip, protocol, body, trailer) =>
      var bytes, at := ip.Encode(protocol, body), 14 + 4 * |tags|;
      LinkRoundTrip(macs, tags, Ethertype(ip), bytes + trailer);
      HoldsParts(form.Bytes(), at, bytes, trailer);
      LinkFields(|tags|, Ethertype(ip));
      IpPacketOutcome(DecodedLink(|tags|, Ethertype(ip)), form.Bytes(), at, ip, protocol, body);
    case Whole(macs, tags, ip, transport, trailer) => FrameRoundTrip(macs, tags, ip, transport, trailer);
  }

  lemma {:induction false} TooShortOutcome(bytes: seq<byte>)
    requires |bytes| < 14
    ensures Decoded(bytes) == EMPTY_RESULT.Fail(TruncatedEthernetHeader)
  {
  }

  lemma {:induction false} NoIpOutcome(result: PacketDecodeResult, packet: seq<byte>, offset: nat)
    requires result.ethertype != 0x0800 && result.ethertype != 0x86DD
    ensures NetworkDecoded(result, packet, offset) == result
  {
  }

  lemma {:induction false} LinkFields(count: nat, ethertype: u16)
    ensures DecodedLink(count, ethertype).ethertype == ethertype
    ensures DecodedLink(count, ethertype).failureReason == NoFailure
  {
  }

  /** Every packet has a form. */
  lemma {:induction false} EveryPacketHasForm(packet: seq<byte>) returns (form: Form)
    ensures form.Valid() && form.Bytes() == packet
  {
    hide LinkFrame;
    hide Network.Encode;
    hide Transport.Encode;
    hide Ip4Problem;
    hide Ip6Problem;
    if |packet| < 14 {
      return TooShort(packet);
    }
    var macs, tags, ethertype, bytes := LinkWasWritten(packet);
    if IsTagType(ethertype) {
      return CutTag(macs, tags, ethertype, bytes);
    }
    if ethertype != 0x0800 && ethertype != 0x86DD {
      return NoIpPacket(macs, tags, ethertype, bytes);
    }
    if ethertype == 0x0800 && Ip4Problem(bytes) != NoFailure {
      return BadIp4(macs, tags, bytes);
    }
    if ethertype == 0x86DD && Ip6Problem(bytes) != NoFailure {
      return BadIp6(macs, tags, bytes);
    }
    var ip, protocol, body, trailer := IpWasWritten(ethertype, bytes);
    if IpReason(ip, protocol, body) != NoFailure || ip.IsFragment() || (protocol != 6 && protocol != 17) {
      return IpPacket(macs, tags, ip, protocol, body, trailer);
    }
    var transport: Transport;
    if protocol == 6 {
      transport := SegmentWasWritten(body);
    } else {
      transport := DatagramWasWritten(body);
    }
    form := Whole(macs, tags, ip, transport, trailer);
  }

  lemma {:induction false} IpWasWritten(ethertype: u16, bytes: seq<byte>)
    returns (ip: Network, protocol: byte, body: seq<byte>, trailer: seq<byte>)
    requires ethertype == 0x0800 || ethertype == 0x86DD
    requires (if ethertype == 0x0800 then Ip4Problem(bytes) else Ip6Problem(bytes)) == NoFailure
    ensures ValidIp(ip, body) && Ethertype(ip) == ethertype && bytes == ip.Encode(protocol, body) + trailer
  {
    hide Network.Encode;
    if ethertype == 0x0800 {
      ip, body, trailer := Ip4WasWritten(bytes);
      protocol := bytes[9];
    } else {
      ip, body, trailer := Ip6WasWritten(bytes);
      protocol := bytes[6];
    }
  }

  /** A packet decodes to a transport header exactly if it is the frame of a TCP segment or UDP datagram. */
  lemma {:induction false} DecodesIffFrame(packet: seq<byte>)
    ensures Decoded(packet).failureReason == NoFailure && Decoded(packet).transportProtocol != NoTransport
            <==> exists form: Form :: form.Valid() && form.Whole? && form.Bytes() == packet
  {
    hide Decoded;
    hide Form.Valid;
    hide Form.Bytes;
    hide Form.Outcome;
    var form := EveryPacketHasForm(packet);
    FormDecides(form);
    TransportIffWhole(form);
    if other: Form :| other.Valid() && other.Whole? && other.Bytes() == packet {
      FormDecides(other);
      TransportIffWhole(other);
    }
  }

  lemma {:induction false} TransportIffWhole(form: Form)
    requires form.Valid()
    ensures form.Outcome().failureReason == NoFailure && form.Outcome().transportProtocol != NoTransport
            <==> form.Whole?
  {
    hide Ip4Problem;
    hide Ip6Problem;
  }
}
