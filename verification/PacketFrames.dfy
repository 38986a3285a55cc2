/** Frames built from their header fields, byte by byte as their standards say, and the decoder as the inverse of
    building them: IEEE 802.1Q, RFC 791 (IPv4), RFC 8200 (IPv6), RFC 9293 (TCP) and RFC 768 (UDP). */
module PacketFrames {
  import opened Bytes
  import opened PacketDecode

  function Be16(value: u16): (bytes: seq<byte>)
    ensures |bytes| == 2
  {
    [value / 0x100, value % 0x100]
  }

  function Be32(value: u32): (bytes: seq<byte>)
    ensures |bytes| == 4
  {
    Be16(value / 0x1_0000) + Be16(value % 0x1_0000)
  }

  /** A TCP segment or UDP datagram. `rest` is the window, checksum and urgent pointer of a TCP header;
      `slack` is what the IP packet carries beyond the UDP length. */
  datatype Transport =
    | TcpSegment(srcPort: u16, dstPort: u16, seqNumber: u32, ackNumber: u32, reserved: byte, flags: byte,
                 rest: seq<byte>, options: seq<byte>, payload: seq<byte>)
    | UdpDatagram(srcPort: u16, dstPort: u16, checksum: u16, payload: seq<byte>, slack: seq<byte>)
  {
    predicate Valid() {
      match this
      case TcpSegment(_, _, _, _, reserved, _, rest, options, _) =>
        reserved < 16 && |rest| == 6 && |options| <= 40 && |options| % 4 == 0
      case UdpDatagram(_, _, _, payload, _) => 8 + |payload| <= 0xFFFF
    }

    function Protocol(): byte {
      if TcpSegment? then 6 else 17
    }

    function HeaderLength(): nat {
      if TcpSegment? then 20 + |options| else 8
    }

    function Encode(): (bytes: seq<byte>)
      requires Valid()
      ensures |bytes| == HeaderLength() + |payload| + if TcpSegment? then 0 else |slack|
    {
      match this
      case TcpSegment(srcPort, dstPort, seqNumber, ackNumber, reserved, flags, rest, options, payload) =>
        var dataOffset: int := 5 + |options| / 4;
        Be16(srcPort) + (Be16(dstPort) + (Be32(seqNumber) + (Be32(ackNumber)
        + ([dataOffset * 16 + reserved, flags] + (rest + options + payload)))))
      case UdpDatagram(srcPort, dstPort, checksum, payload, slack) =>
        Be16(srcPort) + (Be16(dstPort) + (Be16(8 + |payload|) + (Be16(checksum) + payload + slack)))
    }
  }

  /** An IP header, of a whole packet or of a fragment. */
  datatype Network =
    | Ip4(tos: byte, id: u16, reserved: bool, dontFragment: bool, moreFragments: bool, fragmentOffset: nat, ttl: byte,
          checksum: u16, src: seq<byte>, dst: seq<byte>, options: seq<byte>)
    | Ip6(flow: seq<byte>, hopLimit: byte, src: seq<byte>, dst: seq<byte>)
  {
    function AddressLength(): byte {
      if Ip4? then 4 else 16
    }

    predicate Valid() {
      && |src| == |dst| == AddressLength()
      && (Ip4? ==> |options| <= 40 && |options| % 4 == 0 && fragmentOffset < 0x2000)
      && (Ip6? ==> |flow| == 4 && flow[0] / 16 == 6)
    }

    function HeaderLength(): nat {
      if Ip4? then 20 + |options| else 40
    }

    /** The length that an IPv4 header announces, or an IPv6 header for what follows it, fits in 16 bits. */
    predicate Carries(body: seq<byte>) {
      |body| + (if Ip4? then HeaderLength() else 0) <= 0xFFFF
    }

    predicate IsFragment() {
      Ip4? && (moreFragments || fragmentOffset != 0)
    }

    /** The flags and the fragment offset. */
    function Flags(): u16
      requires Ip4? && fragmentOffset < 0x2000
    {
      (if reserved then 0x8000 else 0) + (if dontFragment then 0x4000 else 0) + (if moreFragments then 0x2000 else 0)
      + fragmentOffset
    }

    function Encode(protocol: byte, body: seq<byte>): (bytes: seq<byte>)
      requires Valid() && Carries(body)
      ensures |bytes| == HeaderLength() + |body|
    {
      if Ip4? then
        var ihl: int := 5 + |options| / 4;
        [4 * 16 + ihl, tos] + (Be16(20 + |options| + |body|) + (Be16(id) + (Be16(Flags())
        + ([ttl, protocol] + (Be16(checksum) + (src + (dst + (options + body))))))))
      else
        flow + (Be16(|body|) + ([protocol, hopLimit] + (src + (dst + body))))
    }
  }

  datatype VlanTag = VlanTag(tpid: u16, tci: u16)

  /** The tags and the EtherType behind the last of them. */
  function TypeBytes(tags: seq<VlanTag>, ethertype: u16): (bytes: seq<byte>)
    ensures |bytes| == 4 * |tags| + 2
  {
    if tags == [] then Be16(ethertype)
    else Be16(tags[0].tpid) + (Be16(tags[0].tci) + TypeBytes(tags[1..], ethertype))
  }

  /** The two kinds of tags: 802.1Q and 802.1ad. */
  predicate IsTagType(ethertype: u16) {
    ethertype == 0x8100 || ethertype == 0x88A8
  }

  ghost predicate ValidLink(macs: seq<byte>, tags: seq<VlanTag>) {
    |macs| == 12 && forall tag :: tag in tags ==> IsTagType(tag.tpid)
  }

  predicate ValidIp(ip: Network, body: seq<byte>) {
    ip.Valid() && ip.Carries(body)
  }

  ghost predicate ValidFrame(macs: seq<byte>, tags: seq<VlanTag>, ip: Network, transport: Transport) {
    ValidLink(macs, tags) && transport.Valid() && ValidIp(ip, transport.Encode()) && !ip.IsFragment()
  }

  function Ethertype(ip: Network): u16 {
    if ip.Ip4? then 0x0800 else 0x86DD
  }

  /** A frame around any bytes. */
  function LinkFrame(macs: seq<byte>, tags: seq<VlanTag>, ethertype: u16, bytes: seq<byte>): seq<byte> {
    macs + (TypeBytes(tags, ethertype) + bytes)
  }

  /** A frame around an IP packet of any protocol. */
  function IpFrame(
    macs: seq<byte>, tags: seq<VlanTag>, ip: Network, protocol: byte, body: seq<byte>, trailer: seq<byte>): seq<byte>
    requires ValidIp(ip, body)
  {
    LinkFrame(macs, tags, Ethertype(ip), ip.Encode(protocol, body) + trailer)
  }

  /** A frame around a TCP segment or UDP datagram. */
  function Frame(macs: seq<byte>, tags: seq<VlanTag>, ip: Network, transport: Transport, trailer: seq<byte>): seq<byte>
    requires ValidFrame(macs, tags, ip, transport)
  {
    IpFrame(macs, tags, ip, transport.Protocol(), transport.Encode(), trailer)
  }

  // ---------------------------------------------------------------------------------------------
  // Parts of a packet

  /** The bytes `part` stand at `offset`. */
  predicate Holds(packet: seq<byte>, offset: nat, part: seq<byte>) {
    offset + |part| <= |packet| && packet[offset..offset + |part|] == part
  }

  lemma {:induction false} HoldsParts(packet: seq<byte>, offset: nat, a: seq<byte>, b: seq<byte>)
    requires Holds(packet, offset, a + b)
    ensures Holds(packet, offset, a) && Holds(packet, offset + |a|, b)
  {
    var part := packet[offset..offset + |a + b|];
    assert part[..|a|] == a && part[|a|..] == b;
  }

  lemma {:induction false} HoldsBe16(packet: seq<byte>, offset: nat, value: u16)
    requires Holds(packet, offset, Be16(value))
    ensures HasBytes(packet, offset, 2) && ReadBe16(packet, offset) == value
  {
    var part := packet[offset..offset + 2];
    assert part[0] == packet[offset] && part[1] == packet[offset + 1];
  }

  lemma {:induction false} HoldsBe32(packet: seq<byte>, offset: nat, value: u32)
    requires Holds(packet, offset, Be32(value))
    ensures HasBytes(packet, offset, 4) && ReadBe32(packet, offset) == value
  {
    HoldsParts(packet, offset, Be16(value / 0x1_0000), Be16(value % 0x1_0000));
    HoldsBe16(packet, offset, value / 0x1_0000);
    HoldsBe16(packet, offset + 2, value % 0x1_0000);
  }

  lemma {:induction false} HoldsPair(packet: seq<byte>, offset: nat, x: byte, y: byte)
    requires Holds(packet, offset, [x, y])
    ensures HasBytes(packet, offset, 2) && packet[offset] == x && packet[offset + 1] == y
  {
    var part := packet[offset..offset + 2];
    assert part[0] == packet[offset] && part[1] == packet[offset + 1];
  }

  // ---------------------------------------------------------------------------------------------
  // The transport layer

  /** What a decoded transport header adds to a result. */
  function WithTransport(result: PacketDecodeResult, transport: Transport, offset: nat): PacketDecodeResult {
    var common := result.(
      transportProtocol := if transport.TcpSegment? then Tcp else Udp,
      transportHeaderOffset := offset,
      transportHeaderLength := transport.HeaderLength(),
      transportPayloadOffset := offset + transport.HeaderLength(),
      transportPayloadLength := |transport.payload|,
      srcPort := transport.srcPort,
      dstPort := transport.dstPort);
    if transport.TcpSegment? then common.(tcpSeq := transport.seqNumber, tcpFlags := transport.flags) else common
  }

  lemma {:induction false} TcpParts(packet: seq<byte>, offset: nat, t: Transport)
    requires t.TcpSegment? && t.Valid() && Holds(packet, offset, t.Encode())
    ensures HasBytes(packet, offset, 20 + |t.options|)
    ensures ReadBe16(packet, offset) == t.srcPort && ReadBe16(packet, offset + 2) == t.dstPort
    ensures ReadBe32(packet, offset + 4) == t.seqNumber
    ensures packet[offset + 12] / 16 == 5 + |t.options| / 4 && packet[offset + 13] == t.flags
    ensures Holds(packet, offset + 20 + |t.options|, t.payload)
  {
    hide Holds;
    hide Be16;
    hide Be32;
    hide ReadBe16;
    hide ReadBe32;
    hide Transport.Encode;
    var dataOffset: int := 5 + |t.options| / 4;
    var control, after := [dataOffset * 16 + t.reserved, t.flags], t.rest + t.options + t.payload;
    TcpEncoding(t);
    Size(packet, offset, t.Encode());
    TcpWords(packet, offset, t.srcPort, t.dstPort, t.seqNumber, t.ackNumber, control + after);
    HoldsParts(packet, offset + 12, control, after);
    HoldsPair(packet, offset + 12, dataOffset * 16 + t.reserved, t.flags);
    HighNibble(dataOffset, t.reserved);
    HoldsParts(packet, offset + 14, t.rest + t.options, t.payload);
  }

  lemma {:induction false} HighNibble(high: byte, low: byte)
    requires high < 16 && low < 16
    ensures (high * 16 + low) / 16 == high
  {
  }

  lemma {:induction false} TcpEncoding(t: Transport)
    requires t.TcpSegment? && t.Valid()
    ensures 5 + |t.options| / 4 < 16
    ensures t.Encode()
            == Be16(t.srcPort) + (Be16(t.dstPort) + (Be32(t.seqNumber) + (Be32(t.ackNumber)
               + ([(5 + |t.options| / 4) * 16 + t.reserved, t.flags] + (t.rest + t.options + t.payload)))))
  {
    hide Be16;
    hide Be32;
  }

  /** The first twelve bytes of a TCP header. */
  lemma {:induction false} TcpWords(
    packet: seq<byte>, offset: nat, src: u16, dst: u16, seqNumber: u32, ackNumber: u32, rest: seq<byte>)
    requires Holds(packet, offset, Be16(src) + (Be16(dst) + (Be32(seqNumber) + (Be32(ackNumber) + rest))))
    ensures HasBytes(packet, offset, 8) && ReadBe16(packet, offset) == src && ReadBe16(packet, offset + 2) == dst
    ensures ReadBe32(packet, offset + 4) == seqNumber
    ensures Holds(packet, offset + 12, rest)
  {
    hide Holds;
    hide Be16;
    hide Be32;
    hide ReadBe16;
    hide ReadBe32;
    HoldsParts(packet, offset, Be16(src), Be16(dst) + (Be32(seqNumber) + (Be32(ackNumber) + rest)));
    HoldsBe16(packet, offset, src);
    HoldsParts(packet, offset + 2, Be16(dst), Be32(seqNumber) + (Be32(ackNumber) + rest));
    HoldsBe16(packet, offset + 2, dst);
    HoldsParts(packet, offset + 4, Be32(seqNumber), Be32(ackNumber) + rest);
    HoldsBe32(packet, offset + 4, seqNumber);
    HoldsParts(packet, offset + 8, Be32(ackNumber), rest);
  }

  lemma {:induction false} Size(packet: seq<byte>, offset: nat, part: seq<byte>)
    requires Holds(packet, offset, part)
    ensures offset + |part| <= |packet|
  {
  }

  lemma {:induction false} TcpRoundTrip(result: PacketDecodeResult, packet: seq<byte>, offset: nat, t: Transport)
    requires t.TcpSegment? && t.Valid() && Holds(packet, offset, t.Encode())
    ensures TcpDecoded(result, packet, offset, offset + |t.Encode()|) == WithTransport(result, t, offset)
    ensures Holds(packet, offset + t.HeaderLength(), t.payload)
  {
    hide Holds;
    hide ReadBe16;
    hide ReadBe32;
    hide Transport.Encode;
    TcpParts(packet, offset, t);
    Size(packet, offset, t.Encode());
  }

  lemma {:induction false} UdpRoundTrip(result: PacketDecodeResult, packet: seq<byte>, offset: nat, t: Transport)
    requires t.UdpDatagram? && t.Valid() && Holds(packet, offset, t.Encode())
    ensures UdpDecoded(result, packet, offset, offset + |t.Encode()|) == WithTransport(result, t, offset)
    ensures Holds(packet, offset + t.HeaderLength(), t.payload)
  {
    hide Holds;
    hide Be16;
    hide ReadBe16;
    var fromLength := Be16(8 + |t.payload|) + (Be16(t.checksum) + t.payload + t.slack);
    Size(packet, offset, t.Encode());
    HoldsParts(packet, offset, Be16(t.srcPort), Be16(t.dstPort) + fromLength);
    HoldsBe16(packet, offset, t.srcPort);
    HoldsParts(packet, offset + 2, Be16(t.dstPort), fromLength);
    HoldsBe16(packet, offset + 2, t.dstPort);
    HoldsParts(packet, offset + 4, Be16(8 + |t.payload|), Be16(t.checksum) + t.payload + t.slack);
    HoldsBe16(packet, offset + 4, 8 + |t.payload|);
    HoldsParts(packet, offset + 6, Be16(t.checksum) + t.payload, t.slack);
    HoldsParts(packet, offset + 6, Be16(t.checksum), t.payload);
  }

  // ---------------------------------------------------------------------------------------------
  // The network layer

  /** An address in a field of 16 bytes. */
  function Padded(address: seq<byte>): Address
    requires |address| == 4 || |address| == 16
  {
    if |address| == 4 then address + [0, 0, 0, 0, 0, 0, 0, 0, 0, 0, 0, 0] else address
  }

  /** What a decoded IP header adds to a result. */
  function WithNetwork(result: PacketDecodeResult, ip: Network, protocol: byte, offset: nat): PacketDecodeResult
    requires ip.Valid()
  {
    result.(success := true,
            ipVersion := if ip.Ip4? then Ipv4 else Ipv6,
            networkHeaderOffset := offset,
            networkHeaderLength := ip.HeaderLength(),
            ipProtocol := protocol,
            addressLength := ip.AddressLength(),
            srcAddress := Padded(ip.src),
            dstAddress := Padded(ip.dst))
  }

  lemma {:induction false} Ipv4Parts(packet: seq<byte>, offset: nat, ip: Network, protocol: byte, body: seq<byte>)
    requires ip.Ip4? && ip.Valid() && ip.Carries(body)
    requires Holds(packet, offset, ip.Encode(protocol, body))
    ensures HasBytes(packet, offset, ip.HeaderLength() + |body|)
    ensures packet[offset] == 4 * 16 + 5 + |ip.options| / 4
    ensures ReadBe16(packet, offset + 2) == ip.HeaderLength() + |body|
    ensures ReadBe16(packet, offset + 6) == ip.Flags()
    ensures packet[offset + 9] == protocol
    ensures packet[offset + 12..offset + 16] == ip.src && packet[offset + 16..offset + 20] == ip.dst
    ensures Holds(packet, offset + ip.HeaderLength(), body)
  {
    hide Be16;
    hide ReadBe16;
    hide Holds;
    hide Network.Flags;
    hide Network.Encode;
    Ip4Encoding(ip, protocol, body);
    Size(packet, offset, ip.Encode(protocol, body));
    var ihl: int := 5 + |ip.options| / 4;
    var total: u16 := 20 + |ip.options| + |body|;
    var fromTtl := [ip.ttl, protocol] + (Be16(ip.checksum) + (ip.src + (ip.dst + (ip.options + body))));
    Ipv4Words(packet, offset, [4 * 16 + ihl, ip.tos], total, ip.id, ip.Flags(), fromTtl);
    HoldsPair(packet, offset, 4 * 16 + ihl, ip.tos);
    Ipv4Rest(packet, offset + 8, ip, protocol, body);
  }

  lemma {:induction false} Ip4Encoding(ip: Network, protocol: byte, body: seq<byte>)
    requires ip.Ip4? && ip.Valid() && ip.Carries(body)
    ensures 5 + |ip.options| / 4 < 16
    ensures ip.Encode(protocol, body)
            == [4 * 16 + 5 + |ip.options| / 4, ip.tos]
               + (Be16(20 + |ip.options| + |body|) + (Be16(ip.id) + (Be16(ip.Flags())
               + ([ip.ttl, protocol] + (Be16(ip.checksum) + (ip.src + (ip.dst + (ip.options + body))))))))
  {
    hide Be16;
    hide Network.Flags;
  }

  /** The first eight bytes of an IPv4 header. */
  lemma {:induction false} Ipv4Words(
    packet: seq<byte>, offset: nat, first: seq<byte>, total: u16, id: u16, flags: u16, rest: seq<byte>)
    requires |first| == 2
    requires Holds(packet, offset, first + (Be16(total) + (Be16(id) + (Be16(flags) + rest))))
    ensures Holds(packet, offset, first)
    ensures HasBytes(packet, offset, 8)
    ensures ReadBe16(packet, offset + 2) == total && ReadBe16(packet, offset + 6) == flags
    ensures Holds(packet, offset + 8, rest)
  {
    hide Be16;
    hide ReadBe16;
    hide Holds;
    HoldsParts(packet, offset, first, Be16(total) + (Be16(id) + (Be16(flags) + rest)));
    HoldsParts(packet, offset + 2, Be16(total), Be16(id) + (Be16(flags) + rest));
    HoldsBe16(packet, offset + 2, total);
    HoldsParts(packet, offset + 4, Be16(id), Be16(flags) + rest);
    HoldsParts(packet, offset + 6, Be16(flags), rest);
    HoldsBe16(packet, offset + 6, flags);
  }

  /** The rest of an IPv4 header, and the body. */
  lemma {:induction false} Ipv4Rest(packet: seq<byte>, offset: nat, ip: Network, protocol: byte, body: seq<byte>)
    requires ip.Ip4? && ip.Valid()
    requires Holds(packet, offset, [ip.ttl, protocol] + (Be16(ip.checksum) + (ip.src + (ip.dst + (ip.options + body)))))
    ensures HasBytes(packet, offset, 12 + |ip.options|) && packet[offset + 1] == protocol
    ensures packet[offset + 4..offset + 8] == ip.src && packet[offset + 8..offset + 12] == ip.dst
    ensures Holds(packet, offset + 12 + |ip.options|, body)
  {
    hide Be16;
    hide Holds;
    var addresses := ip.src + (ip.dst + (ip.options + body));
    HoldsParts(packet, offset, [ip.ttl, protocol], Be16(ip.checksum) + addresses);
    HoldsPair(packet, offset, ip.ttl, protocol);
    HoldsParts(packet, offset + 2, Be16(ip.checksum), addresses);
    AddressParts(packet, offset + 4, ip.src, ip.dst, ip.options + body);
    HoldsParts(packet, offset + 12, ip.options, body);
    Size(packet, offset + 12, ip.options);
  }

  lemma {:induction false} AddressParts(packet: seq<byte>, offset: nat, src: seq<byte>, dst: seq<byte>, rest: seq<byte>)
    requires Holds(packet, offset, src + (dst + rest))
    ensures offset + |src| + |dst| <= |packet|
    ensures packet[offset..offset + |src|] == src && packet[offset + |src|..offset + |src| + |dst|] == dst
    ensures Holds(packet, offset + |src| + |dst|, rest)
  {
    HoldsParts(packet, offset, src, dst + rest);
    HoldsParts(packet, offset + |src|, dst, rest);
  }

  lemma {:induction false} Ipv6Parts(packet: seq<byte>, offset: nat, ip: Network, protocol: byte, body: seq<byte>)
    requires ip.Ip6? && ip.Valid() && ip.Carries(body)
    requires Holds(packet, offset, ip.Encode(protocol, body))
    ensures HasBytes(packet, offset, 40 + |body|)
    ensures packet[offset] / 16 == 6
    ensures ReadBe16(packet, offset + 4) == |body|
    ensures packet[offset + 6] == protocol
    ensures packet[offset + 8..offset + 24] == ip.src && packet[offset + 24..offset + 40] == ip.dst
    ensures Holds(packet, offset + 40, body)
  {
    hide Be16;
    hide ReadBe16;
    var addresses := ip.src + (ip.dst + body);
    var fromLength := Be16(|body|) + ([protocol, ip.hopLimit] + addresses);
    HoldsParts(packet, offset, ip.flow, fromLength);
    assert packet[offset..offset + 4][0] == packet[offset];
    HoldsParts(packet, offset + 4, Be16(|body|), [protocol, ip.hopLimit] + addresses);
    HoldsBe16(packet, offset + 4, |body|);
    HoldsParts(packet, offset + 6, [protocol, ip.hopLimit], addresses);
    HoldsPair(packet, offset + 6, protocol, ip.hopLimit);
    AddressParts(packet, offset + 8, ip.src, ip.dst, body);
  }

  lemma {:induction false} TransportRoundTrip(result: PacketDecodeResult, packet: seq<byte>, offset: nat, t: Transport)
    requires t.Valid() && Holds(packet, offset, t.Encode()) && result.ipProtocol == t.Protocol()
    ensures TransportDecoded(result, packet, offset, offset + |t.Encode()|) == WithTransport(result, t, offset)
    ensures Holds(packet, offset + t.HeaderLength(), t.payload)
  {
    hide TcpDecoded;
    hide UdpDecoded;
    hide WithTransport;
    hide Holds;
    if t.TcpSegment? {
      TcpRoundTrip(result, packet, offset, t);
    } else {
      UdpRoundTrip(result, packet, offset, t);
    }
  }

  /** The extension headers that the decoder refuses: hop-by-hop options, routing, fragment, authentication,
      destination options, mobility, host identity and shim6. */
  predicate IsExtension(protocol: byte) {
    protocol in {0, 43, 44, 51, 60, 135, 139, 140}
  }

  /** An IP header decodes to its fields. Extension headers of IPv6 are refused, fragments are not looked into, and
      any other packet is handed to the transport layer, up to where the IP packet ends. */
  lemma {:induction false} IpRoundTrip(
    result: PacketDecodeResult, packet: seq<byte>, offset: nat, ip: Network, protocol: byte, body: seq<byte>)
    requires ValidIp(ip, body) && Holds(packet, offset, ip.Encode(protocol, body))
    requires result.ethertype == Ethertype(ip)
    ensures var header, start := WithNetwork(result, ip, protocol, offset), offset + ip.HeaderLength();
            NetworkDecoded(result, packet, offset)
            == if ip.Ip6? && IsExtension(protocol) then header.Fail(UnsupportedIpv6ExtensionHeaders)
               else if ip.IsFragment() then header
               else TransportDecoded(header, packet, start, start + |body|)
    ensures Holds(packet, offset + ip.HeaderLength(), body)
  {
    hide Holds;
    hide TransportDecoded;
    hide Ipv4Decoded;
    hide Ipv6Decoded;
    hide WithNetwork;
    hide Network.Encode;
    if ip.Ip4? {
      Ip4RoundTrip(result, packet, offset, ip, protocol, body);
    } else {
      Ip6RoundTrip(result, packet, offset, ip, protocol, body);
    }
  }

  lemma {:induction false} Ip4RoundTrip(
    result: PacketDecodeResult, packet: seq<byte>, offset: nat, ip: Network, protocol: byte, body: seq<byte>)
    requires ip.Ip4? && ValidIp(ip, body) && Holds(packet, offset, ip.Encode(protocol, body))
    ensures var header, start := WithNetwork(result, ip, protocol, offset), offset + ip.HeaderLength();
            Ipv4Decoded(result, packet, offset)
            == if ip.IsFragment() then header else TransportDecoded(header, packet, start, start + |body|)
    ensures Holds(packet, offset + ip.HeaderLength(), body)
  {
    hide Holds;
    hide TransportDecoded;
    hide ReadBe16;
    hide Network.Encode;
    hide Network.Flags;
    hide BitSet;
    Ipv4Parts(packet, offset, ip, protocol, body);
    assert Ipv4Header(result, packet, offset) == WithNetwork(result, ip, protocol, offset);
    FragmentBits(ip);
  }

  lemma {:induction false} Ip6RoundTrip(
    result: PacketDecodeResult, packet: seq<byte>, offset: nat, ip: Network, protocol: byte, body: seq<byte>)
    requires ip.Ip6? && ValidIp(ip, body) && Holds(packet, offset, ip.Encode(protocol, body))
    ensures var header, start := WithNetwork(result, ip, protocol, offset), offset + 40;
            Ipv6Decoded(result, packet, offset)
            == if IsExtension(protocol) then header.Fail(UnsupportedIpv6ExtensionHeaders)
               else TransportDecoded(header, packet, start, start + |body|)
    ensures Holds(packet, offset + 40, body)
  {
    hide Holds;
    hide TransportDecoded;
    hide ReadBe16;
    hide Network.Encode;
    Ipv6Parts(packet, offset, ip, protocol, body);
    assert Ipv6Header(result, packet, offset) == WithNetwork(result, ip, protocol, offset);
  }

  lemma {:induction false} FragmentBits(ip: Network)
    requires ip.Ip4? && ip.Valid()
    ensures BitSet(ip.Flags(), 0x2000) || ip.Flags() % 0x2000 != 0 <==> ip.IsFragment()
  {
    var upper := (if ip.reserved then 4 else 0) + (if ip.dontFragment then 2 else 0) + if ip.moreFragments then 1
      else 0;
    assert ip.Flags() == 0x2000 * upper + ip.fragmentOffset;
    assert ip.Flags() / 0x2000 == upper;
  }

  lemma {:induction false} NetworkRoundTrip(
    result: PacketDecodeResult, packet: seq<byte>, offset: nat, ip: Network, t: Transport)
    requires t.Valid() && ValidIp(ip, t.Encode()) && !ip.IsFragment()
    requires Holds(packet, offset, ip.Encode(t.Protocol(), t.Encode()))
    requires result.ethertype == Ethertype(ip)
    ensures NetworkDecoded(result, packet, offset)
            == WithTransport(WithNetwork(result, ip, t.Protocol(), offset), t, offset + ip.HeaderLength())
    ensures Holds(packet, offset + ip.HeaderLength() + t.HeaderLength(), t.payload)
  {
    hide Holds;
    hide NetworkDecoded;
    hide TransportDecoded;
    hide WithTransport;
    hide WithNetwork;
    hide Transport.Encode;
    hide Network.Encode;
    IpRoundTrip(result, packet, offset, ip, t.Protocol(), t.Encode());
    var header := WithNetwork(result, ip, t.Protocol(), offset);
    assert header.ipProtocol == t.Protocol() by {
      HeaderProtocol(result, ip, t.Protocol(), offset);
    }
    TransportRoundTrip(header, packet, offset + ip.HeaderLength(), t);
  }

  lemma {:induction false} HeaderProtocol(result: PacketDecodeResult, ip: Network, protocol: byte, offset: nat)
    requires ip.Valid()
    ensures WithNetwork(result, ip, protocol, offset).ipProtocol == protocol
  {
  }

  // ---------------------------------------------------------------------------------------------
  // The link layer

  lemma {:induction false} StripOne(result: PacketDecodeResult, packet: seq<byte>, offset: nat)
    ensures !IsVlanEthertype(result.ethertype) ==> StripTags(result, packet, offset) == result
    ensures IsVlanEthertype(result.ethertype) && HasBytes(packet, offset, 4) ==>
              StripTags(result, packet, offset) == StripTags(StripTag(result, packet, offset), packet, offset + 4)
  {
  }

  lemma {:induction false} CountOn(count: byte, more: nat)
    ensures ((count + 1) % 0x100 + more) % 0x100 == (count + 1 + more) % 0x100
  {
  }

  function AfterTags(result: PacketDecodeResult, count: nat, ethertype: u16): PacketDecodeResult {
    result.(vlanTagCount := (result.vlanTagCount + count) % 0x100,
            ethertype := ethertype,
            linkHeaderLength := result.linkHeaderLength + 4 * count)
  }

  lemma {:induction false} OneMore(
    result: PacketDecodeResult, packet: seq<byte>, offset: nat, more: nat, ethertype: u16)
    requires HasBytes(packet, offset, 4)
    ensures AfterTags(StripTag(result, packet, offset), more, ethertype) == AfterTags(result, more + 1, ethertype)
    ensures StripTag(result, packet, offset).ethertype == ReadBe16(packet, offset + 2)
  {
    CountOn(result.vlanTagCount, more);
  }

  lemma {:induction false} TagTypes(ethertype: u16)
    ensures IsVlanEthertype(ethertype) <==> IsTagType(ethertype)
  {
  }

  lemma {:induction false} NoTags(result: PacketDecodeResult)
    ensures AfterTags(result, 0, result.ethertype) == result
  {
  }

  /** Tags are stripped one by one, down to the EtherType behind the last. */
  lemma {:induction false} TagsRoundTrip(
    result: PacketDecodeResult, packet: seq<byte>, offset: nat, tags: seq<VlanTag>, ethertype: u16)
    requires offset >= 2 && Holds(packet, offset - 2, TypeBytes(tags, ethertype))
    requires HasBytes(packet, offset - 2, 2) && result.ethertype == ReadBe16(packet, offset - 2)
    requires (forall tag :: tag in tags ==> IsTagType(tag.tpid)) && !IsTagType(ethertype)
    ensures StripTags(result, packet, offset)
            == AfterTags(result, |tags|, ethertype)
    decreases |tags|
  {
    hide Be16;
    hide ReadBe16;
    hide Holds;
    hide IsVlanEthertype;
    hide IsTagType;
    hide StripTags;
    hide StripTag;
    hide AfterTags;
    StripOne(result, packet, offset);
    TagTypes(result.ethertype);
    if tags == [] {
      HoldsBe16(packet, offset - 2, ethertype);
      NoTags(result);
    } else {
      var rest := TypeBytes(tags[1..], ethertype);
      HoldsParts(packet, offset - 2, Be16(tags[0].tpid), Be16(tags[0].tci) + rest);
      HoldsBe16(packet, offset - 2, tags[0].tpid);
      HoldsParts(packet, offset, Be16(tags[0].tci), rest);
      Size(packet, offset + 2, rest);
      assert tags[0] in tags;
      OneMore(result, packet, offset, |tags| - 1, ethertype);
      TagsRoundTrip(StripTag(result, packet, offset), packet, offset + 4, tags[1..], ethertype);
    }
  }

  function DecodedLink(tagCount: nat, ethertype: u16): PacketDecodeResult {
    var counted: byte := tagCount % 0x100;
    PacketDecodeResult(
      true, NoFailure, ethertype, counted, NoIp, NoTransport, 0, 14 + 4 * tagCount, 0, 0, 0, 0, 0, 0, 0, 0, 0, 0,
      ZERO_ADDRESS, ZERO_ADDRESS, 0)
  }

  /** What decoding a frame must report. */
  function DecodedFrame(tags: seq<VlanTag>, ip: Network, transport: Transport): PacketDecodeResult
    requires ip.Valid()
  {
    var at := 14 + 4 * |tags|;
    WithTransport(
      WithNetwork(DecodedLink(|tags|, Ethertype(ip)), ip, transport.Protocol(), at), transport, at + ip.HeaderLength())
  }

  lemma {:induction false} WholePacket(packet: seq<byte>)
    ensures Holds(packet, 0, packet)
  {
  }

  /** The link header and its tags decode to their number and to the EtherType behind them, and the network layer
      goes on from there. */
  lemma {:induction false} LinkRoundTrip(macs: seq<byte>, tags: seq<VlanTag>, ethertype: u16, bytes: seq<byte>)
    requires ValidLink(macs, tags) && !IsTagType(ethertype)
    ensures var packet, at := LinkFrame(macs, tags, ethertype, bytes), 14 + 4 * |tags|;
            && Decoded(packet) == NetworkDecoded(DecodedLink(|tags|, ethertype), packet, at)
            && Holds(packet, at, bytes)
  {
    hide StripTags;
    hide NetworkDecoded;
    hide TypeBytes;
    hide Be16;
    hide ReadBe16;
    hide Holds;
    var packet, types := LinkFrame(macs, tags, ethertype, bytes), TypeBytes(tags, ethertype);
    WholePacket(packet);
    HoldsParts(packet, 0, macs, types + bytes);
    HoldsParts(packet, 12, types, bytes);
    Size(packet, 12, types);
    TagsRoundTrip(EthernetHeader(packet), packet, 14, tags, ethertype);
  }

  /** Decoding inverts building: for every frame with any number of VLAN tags, the header of an unfragmented
      IPv4 packet or an IPv6 header without extensions, a TCP or UDP header, each with or without options,
      and whatever follows the IP packet, the decoder reports every field that went in, and the payload is
      where it says. */
  lemma {:induction false} FrameRoundTrip(
    macs: seq<byte>, tags: seq<VlanTag>, ip: Network, transport: Transport, trailer: seq<byte>)
    requires ValidFrame(macs, tags, ip, transport)
    ensures Decoded(Frame(macs, tags, ip, transport, trailer)) == DecodedFrame(tags, ip, transport)
    ensures Holds(Frame(macs, tags, ip, transport, trailer),
                  14 + 4 * |tags| + ip.HeaderLength() + transport.HeaderLength(), transport.payload)
  {
    hide NetworkDecoded;
    hide WithTransport;
    hide WithNetwork;
    hide TypeBytes;
    hide Holds;
    hide Network.Encode;
    hide Transport.Encode;
    var packet, at := Frame(macs, tags, ip, transport, trailer), 14 + 4 * |tags|;
    var bytes := ip.Encode(transport.Protocol(), transport.Encode());
    LinkRoundTrip(macs, tags, Ethertype(ip), bytes + trailer);
    HoldsParts(packet, at, bytes, trailer);
    NetworkRoundTrip(DecodedLink(|tags|, Ethertype(ip)), packet, at, ip, transport);
  }
}
