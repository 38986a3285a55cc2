/** Ethernet / VLAN / IPv4 / IPv6 / TCP / UDP decoding (src/decode/PacketDecode.cpp). */
module PacketDecode {
  import opened Bytes

  type Address = a: seq<byte> | |a| == 16 witness [0, 0, 0, 0, 0, 0, 0, 0, 0, 0, 0, 0, 0, 0, 0, 0]

  const ZERO_ADDRESS: Address := [0, 0, 0, 0, 0, 0, 0, 0, 0, 0, 0, 0, 0, 0, 0, 0]

  datatype IpVersion = NoIp | Ipv4 | Ipv6

  datatype TransportProtocol = NoTransport | Tcp | Udp

  datatype FailureReason =
    | NoFailure
    | TruncatedEthernetHeader
    | TruncatedVlanTag
    | TruncatedIpv4Header
    | InvalidIpv4Ihl
    | InvalidIpv4TotalLength
    | TruncatedIpv4Packet
    | TruncatedIpv6Header
    | TruncatedIpv6Packet
    | UnsupportedIpv6ExtensionHeaders
    | TruncatedTcpHeader
    | InvalidTcpDataOffset
    | TruncatedUdpHeader
    | InvalidUdpLength
    | TruncatedUdpPayload

  datatype PacketDecodeResult = PacketDecodeResult(
    success: bool,
    failureReason: FailureReason,
    ethertype: u16,
    vlanTagCount: byte,
    ipVersion: IpVersion,
    transportProtocol: TransportProtocol,
    ipProtocol: byte,
    linkHeaderLength: nat,
    networkHeaderOffset: nat,
    networkHeaderLength: nat,
    transportHeaderOffset: nat,
    transportHeaderLength: nat,
    transportPayloadOffset: nat,
    transportPayloadLength: nat,
    srcPort: u16,
    dstPort: u16,
    tcpSeq: u32,
    tcpFlags: byte,
    srcAddress: Address,
    dstAddress: Address,
    addressLength: byte)
  {
    predicate IsNonIp() {
      success && ipVersion == NoIp
    }

    function Fail(reason: FailureReason): PacketDecodeResult {
      this.(success := false, failureReason := reason)
    }
  }

  const EMPTY_RESULT := PacketDecodeResult(
    false, NoFailure, 0, 0, NoIp, NoTransport, 0, 0, 0, 0, 0, 0, 0, 0, 0, 0, 0, 0, ZERO_ADDRESS, ZERO_ADDRESS, 0)

  const ETHERTYPE_VLAN: u16 := 0x8100
  const ETHERTYPE_PROVIDER_BRIDGE: u16 := 0x88A8
  const ETHERTYPE_IPV4: u16 := 0x0800
  const ETHERTYPE_IPV6: u16 := 0x86DD
  const IP_PROTOCOL_TCP: byte := 6
  const IP_PROTOCOL_UDP: byte := 17

  predicate IsVlanEthertype(ethertype: u16) {
    ethertype == ETHERTYPE_VLAN || ethertype == ETHERTYPE_PROVIDER_BRIDGE
  }

  predicate IsUnsupportedIpv6Extension(nextHeader: byte) {
    nextHeader in {0, 43, 44, 51, 60, 135, 139, 140}
  }

  /** The first `length` bytes at `offset`, padded with zeros to the 16 bytes of the address field. */
  function CopyAddress(packet: seq<byte>, offset: nat, length: nat): (address: Address)
    requires HasBytes(packet, offset, length) && length <= 16
    ensures address[length..] == ZERO_ADDRESS[length..]
  {
    packet[offset..offset + length] + ZERO_ADDRESS[length..]
  }

  function TcpDecoded(result: PacketDecodeResult, packet: seq<byte>, offset: nat, end: nat): PacketDecodeResult {
    if !HasBytes(packet, offset, 20) || offset + 20 > end then
      result.Fail(TruncatedTcpHeader)
    else
      var headerLength := (packet[offset + 12] / 16) * 4;
      if headerLength < 20 then
        result.Fail(InvalidTcpDataOffset)
      else if !HasBytes(packet, offset, headerLength) || offset + headerLength > end then
        result.Fail(TruncatedTcpHeader)
      else
        result.(transportProtocol := Tcp,
                transportHeaderOffset := offset,
                transportHeaderLength := headerLength,
                transportPayloadOffset := offset + headerLength,
                transportPayloadLength := end - (offset + headerLength),
                srcPort := ReadBe16(packet, offset),
                dstPort := ReadBe16(packet, offset + 2),
                tcpSeq := ReadBe32(packet, offset + 4),
                tcpFlags := packet[offset + 13])
  }

  function UdpDecoded(result: PacketDecodeResult, packet: seq<byte>, offset: nat, end: nat): PacketDecodeResult {
    if !HasBytes(packet, offset, 8) || offset + 8 > end then
      result.Fail(TruncatedUdpHeader)
    else
      var udpLength := ReadBe16(packet, offset + 4);
      if udpLength < 8 then
        result.Fail(InvalidUdpLength)
      else if offset + udpLength > end then
        result.Fail(TruncatedUdpPayload)
      else
        result.(transportProtocol := Udp,
                transportHeaderOffset := offset,
                transportHeaderLength := 8,
                transportPayloadOffset := offset + 8,
                transportPayloadLength := udpLength - 8,
                srcPort := ReadBe16(packet, offset),
                dstPort := ReadBe16(packet, offset + 2))
  }

  function TransportDecoded(result: PacketDecodeResult, packet: seq<byte>, offset: nat, end: nat): PacketDecodeResult {
    if result.ipProtocol == IP_PROTOCOL_TCP then TcpDecoded(result, packet, offset, end)
    else if result.ipProtocol == IP_PROTOCOL_UDP then UdpDecoded(result, packet, offset, end)
    else result
  }

  /** The fields that an IPv4 header sets. */
  function Ipv4Header(result: PacketDecodeResult, packet: seq<byte>, offset: nat): PacketDecodeResult
    requires HasBytes(packet, offset, 20)
  {
    result.(success := true,
            ipVersion := Ipv4,
            networkHeaderOffset := offset,
            networkHeaderLength := (packet[offset] % 16) * 4,
            ipProtocol := packet[offset + 9],
            addressLength := 4,
            srcAddress := CopyAddress(packet, offset + 12, 4),
            dstAddress := CopyAddress(packet, offset + 16, 4))
  }

  /** The fields that an IPv6 header sets. */
  function Ipv6Header(result: PacketDecodeResult, packet: seq<byte>, offset: nat): PacketDecodeResult
    requires HasBytes(packet, offset, 40)
  {
    result.(success := true,
            ipVersion := Ipv6,
            networkHeaderOffset := offset,
            networkHeaderLength := 40,
            ipProtocol := packet[offset + 6],
            addressLength := 16,
            srcAddress := CopyAddress(packet, offset + 8, 16),
            dstAddress := CopyAddress(packet, offset + 24, 16))
  }

  function Ipv4Decoded(result: PacketDecodeResult, packet: seq<byte>, offset: nat): PacketDecodeResult {
    if !HasBytes(packet, offset, 20) then
      result.Fail(TruncatedIpv4Header)
    else
      var version := packet[offset] / 16;
      var ihl := (packet[offset] % 16) * 4;
      if version != 4 || ihl < 20 then
        result.Fail(InvalidIpv4Ihl)
      else if !HasBytes(packet, offset, ihl) then
        result.Fail(TruncatedIpv4Header)
      else
        var totalLength := ReadBe16(packet, offset + 2);
        if totalLength < ihl then
          result.Fail(InvalidIpv4TotalLength)
        else if !HasBytes(packet, offset, totalLength) then
          result.Fail(TruncatedIpv4Packet)
        else
          var ip := Ipv4Header(result, packet, offset);
          var flagsFragment := ReadBe16(packet, offset + 6);
          if BitSet(flagsFragment, 0x2000) || flagsFragment % 0x2000 != 0 then
            ip
          else
            TransportDecoded(ip, packet, offset + ihl, offset + totalLength)
  }

  function Ipv6Decoded(result: PacketDecodeResult, packet: seq<byte>, offset: nat): PacketDecodeResult {
    if !HasBytes(packet, offset, 40) then
      result.Fail(TruncatedIpv6Header)
    else if packet[offset] / 16 != 6 then
      result.Fail(TruncatedIpv6Header)
    else
      var totalLength := 40 + ReadBe16(packet, offset + 4);
      if !HasBytes(packet, offset, totalLength) then
        result.Fail(TruncatedIpv6Packet)
      else
        var ip := Ipv6Header(result, packet, offset);
        if IsUnsupportedIpv6Extension(ip.ipProtocol) then
          ip.Fail(UnsupportedIpv6ExtensionHeaders)
        else
          TransportDecoded(ip, packet, offset + 40, offset + totalLength)
  }

  function NetworkDecoded(result: PacketDecodeResult, packet: seq<byte>, offset: nat): PacketDecodeResult {
    if result.ethertype == ETHERTYPE_IPV4 then Ipv4Decoded(result, packet, offset)
    else if result.ethertype == ETHERTYPE_IPV6 then Ipv6Decoded(result, packet, offset)
    else result
  }

  /** The decoder state after one VLAN tag. */
  function StripTag(result: PacketDecodeResult, packet: seq<byte>, offset: nat): PacketDecodeResult
    requires HasBytes(packet, offset, 4)
  {
    result.(vlanTagCount := (result.vlanTagCount + 1) % 0x100,
            ethertype := ReadBe16(packet, offset + 2),
            linkHeaderLength := result.linkHeaderLength + 4)
  }

  /** Strips VLAN tags one by one from `offset` on. The tag counter is an 8-bit field, so it wraps
      after 255 tags. */
  function StripTags(result: PacketDecodeResult, packet: seq<byte>, offset: nat): PacketDecodeResult
    decreases |packet| - offset
  {
    if !IsVlanEthertype(result.ethertype) then result
    else if !HasBytes(packet, offset, 4) then result.Fail(TruncatedVlanTag)
    else StripTags(StripTag(result, packet, offset), packet, offset + 4)
  }

  /** The Ethernet header alone. */
  function EthernetHeader(packet: seq<byte>): PacketDecodeResult
    requires HasBytes(packet, 0, 14)
  {
    EMPTY_RESULT.(success := true, linkHeaderLength := 14, ethertype := ReadBe16(packet, 12))
  }

  /** What decoding a packet means: link header and VLAN tags, then the network layer. */
  function Decoded(packet: seq<byte>): PacketDecodeResult {
    if !HasBytes(packet, 0, 14) then
      EMPTY_RESULT.Fail(TruncatedEthernetHeader)
    else
      var link := StripTags(EthernetHeader(packet), packet, 14);
      if link.failureReason != NoFailure then link else NetworkDecoded(link, packet, link.linkHeaderLength)
  }

  // ---------------------------------------------------------------------------------------------
  // The decoder

  /** Fills in the TCP fields of a result; the source does so through a reference, as do the methods below. */
  method DecodeTcp(previous: PacketDecodeResult, packet: seq<byte>, transportOffset: nat, transportEnd: nat)
    returns (result: PacketDecodeResult)
    ensures result == TcpDecoded(previous, packet, transportOffset, transportEnd)
  {
    result := previous;
    if !HasBytes(packet, transportOffset, 20) || transportOffset + 20 > transportEnd {
      result := result.(failureReason := TruncatedTcpHeader);
      result := result.(success := false);
      return;
    }
    var headerLength := (packet[transportOffset + 12] / 16) * 4;
    if headerLength < 20 {
      result := result.(failureReason := InvalidTcpDataOffset);
      result := result.(success := false);
      return;
    }
    if !HasBytes(packet, transportOffset, headerLength) || transportOffset + headerLength > transportEnd {
      result := result.(failureReason := TruncatedTcpHeader);
      result := result.(success := false);
      return;
    }
    result := result.(transportProtocol := Tcp);
    result := result.(transportHeaderOffset := transportOffset);
    result := result.(transportHeaderLength := headerLength);
    result := result.(transportPayloadOffset := transportOffset + headerLength);
    result := result.(transportPayloadLength := transportEnd - result.transportPayloadOffset);
    result := result.(srcPort := ReadBe16(packet, transportOffset));
    result := result.(dstPort := ReadBe16(packet, transportOffset + 2));
    result := result.(tcpSeq := ReadBe32(packet, transportOffset + 4));
    result := result.(tcpFlags := packet[transportOffset + 13]);
  }

  method DecodeUdp(previous: PacketDecodeResult, packet: seq<byte>, transportOffset: nat, transportEnd: nat)
    returns (result: PacketDecodeResult)
    ensures result == UdpDecoded(previous, packet, transportOffset, transportEnd)
  {
    result := previous;
    if !HasBytes(packet, transportOffset, 8) || transportOffset + 8 > transportEnd {
      result := result.(failureReason := TruncatedUdpHeader);
      result := result.(success := false);
      return;
    }
    var udpLength := ReadBe16(packet, transportOffset + 4);
    if udpLength < 8 {
      result := result.(failureReason := InvalidUdpLength);
      result := result.(success := false);
      return;
    }
    if transportOffset + udpLength > transportEnd {
      result := result.(failureReason := TruncatedUdpPayload);
      result := result.(success := false);
      return;
    }
    result := result.(transportProtocol := Udp);
    result := result.(transportHeaderOffset := transportOffset);
    result := result.(transportHeaderLength := 8);
    result := result.(transportPayloadOffset := transportOffset + 8);
    result := result.(transportPayloadLength := udpLength - 8);
    result := result.(srcPort := ReadBe16(packet, transportOffset));
    result := result.(dstPort := ReadBe16(packet, transportOffset + 2));
  }

  method DecodeIpv4(previous: PacketDecodeResult, packet: seq<byte>, networkOffset: nat)
    returns (result: PacketDecodeResult)
    ensures result == Ipv4Decoded(previous, packet, networkOffset)
  {
    hide TcpDecoded;
    hide UdpDecoded;
    hide ReadBe16;
    result := previous;
    if !HasBytes(packet, networkOffset, 20) {
      result := result.(failureReason := TruncatedIpv4Header);
      result := result.(success := false);
      return;
    }
    var version := packet[networkOffset] / 16;
    var ihl := (packet[networkOffset] % 16) * 4;
    if version != 4 || ihl < 20 {
      result := result.(failureReason := InvalidIpv4Ihl);
      result := result.(success := false);
      return;
    }
    if !HasBytes(packet, networkOffset, ihl) {
      result := result.(failureReason := TruncatedIpv4Header);
      result := result.(success := false);
      return;
    }
    var totalLength := ReadBe16(packet, networkOffset + 2);
    if totalLength < ihl {
      result := result.(failureReason := InvalidIpv4TotalLength);
      result := result.(success := false);
      return;
    }
    if !HasBytes(packet, networkOffset, totalLength) {
      result := result.(failureReason := TruncatedIpv4Packet);
      result := result.(success := false);
      return;
    }
    result := result.(success := true);
    result := result.(ipVersion := Ipv4);
    result := result.(networkHeaderOffset := networkOffset);
    result := result.(networkHeaderLength := ihl);
    result := result.(ipProtocol := packet[networkOffset + 9]);
    result := result.(addressLength := 4);
    result := result.(srcAddress := CopyAddress(packet, networkOffset + 12, 4));
    result := result.(dstAddress := CopyAddress(packet, networkOffset + 16, 4));
    var flagsFragment := ReadBe16(packet, networkOffset + 6);
    var moreFragments := BitSet(flagsFragment, 0x2000);
    var fragmentOffset := flagsFragment % 0x2000;
    if moreFragments || fragmentOffset != 0 {
      return;
    }
    if result.ipProtocol == IP_PROTOCOL_TCP {
      result := DecodeTcp(result, packet, networkOffset + ihl, networkOffset + totalLength);
    } else if result.ipProtocol == IP_PROTOCOL_UDP {
      result := DecodeUdp(result, packet, networkOffset + ihl, networkOffset + totalLength);
    }
  }

  method DecodeIpv6(previous: PacketDecodeResult, packet: seq<byte>, networkOffset: nat)
    returns (result: PacketDecodeResult)
    ensures result == Ipv6Decoded(previous, packet, networkOffset)
  {
    hide TcpDecoded;
    hide UdpDecoded;
    hide ReadBe16;
    result := previous;
    if !HasBytes(packet, networkOffset, 40) {
      result := result.(failureReason := TruncatedIpv6Header);
      result := result.(success := false);
      return;
    }
    var version := packet[networkOffset] / 16;
    if version != 6 {
      result := result.(failureReason := TruncatedIpv6Header);
      result := result.(success := false);
      return;
    }
    var totalLength := 40 + ReadBe16(packet, networkOffset + 4);
    if !HasBytes(packet, networkOffset, totalLength) {
      result := result.(failureReason := TruncatedIpv6Packet);
      result := result.(success := false);
      return;
    }
    result := result.(success := true);
    result := result.(ipVersion := Ipv6);
    result := result.(networkHeaderOffset := networkOffset);
    result := result.(networkHeaderLength := 40);
    result := result.(ipProtocol := packet[networkOffset + 6]);
    result := result.(addressLength := 16);
    result := result.(srcAddress := CopyAddress(packet, networkOffset + 8, 16));
    result := result.(dstAddress := CopyAddress(packet, networkOffset + 24, 16));
    if IsUnsupportedIpv6Extension(result.ipProtocol) {
      result := result.(failureReason := UnsupportedIpv6ExtensionHeaders);
      result := result.(success := false);
      return;
    }
    if result.ipProtocol == IP_PROTOCOL_TCP {
      result := DecodeTcp(result, packet, networkOffset + 40, networkOffset + totalLength);
    } else if result.ipProtocol == IP_PROTOCOL_UDP {
      result := DecodeUdp(result, packet, networkOffset + 40, networkOffset + totalLength);
    }
  }

  /** The decoder itself: a loop over the VLAN tags. */
  method DecodePacket(packet: seq<byte>) returns (result: PacketDecodeResult)
    ensures result == Decoded(packet)
  {
    result := EMPTY_RESULT;
    if !HasBytes(packet, 0, 14) {
      result := result.(failureReason := TruncatedEthernetHeader);
      return;
    }
    result := result.(success := true);
    result := result.(linkHeaderLength := 14);
    result := result.(ethertype := ReadBe16(packet, 12));
    var networkOffset := 14;
    while IsVlanEthertype(result.ethertype)
      invariant 14 <= networkOffset
      invariant networkOffset == result.linkHeaderLength && result.failureReason == NoFailure
      invariant StripTags(result, packet, networkOffset) == StripTags(EthernetHeader(packet), packet, 14)
      decreases |packet| - networkOffset
    {
      if !HasBytes(packet, networkOffset, 4) {
        result := result.(success := false);
        result := result.(failureReason := TruncatedVlanTag);
        return;
      }
      result := result.(vlanTagCount := (result.vlanTagCount + 1) % 0x100);
      result := result.(ethertype := ReadBe16(packet, networkOffset + 2));
      networkOffset := networkOffset + 4;
      result := result.(linkHeaderLength := result.linkHeaderLength + 4);
    }
    if result.ethertype == ETHERTYPE_IPV4 {
      result := DecodeIpv4(result, packet, networkOffset);
      return;
    }
    if result.ethertype == ETHERTYPE_IPV6 {
      result := DecodeIpv6(result, packet, networkOffset);
      return;
    }
  }

  // ---------------------------------------------------------------------------------------------
  // What a decode without failure promises

  /** The offset just after the IP packet, read from the IP header that decoding found. */
  function IpEnd(packet: seq<byte>, decoded: PacketDecodeResult): nat
    requires decoded.ipVersion != NoIp ==> HasBytes(packet, decoded.networkHeaderOffset, 20)
  {
    if decoded.ipVersion == Ipv4 then decoded.networkHeaderOffset + ReadBe16(packet, decoded.networkHeaderOffset + 2)
    else if decoded.ipVersion == Ipv6 then
      decoded.networkHeaderOffset + 40 + ReadBe16(packet, decoded.networkHeaderOffset + 4)
    else 0
  }

  /** Offsets, lengths and addresses of a decode that reports no failure fit together and lie inside
      the packet: link, network and transport headers follow one another, and the payload ends with
      the IP packet (TCP) or within it (UDP). */
  ghost predicate WellFormedDecode(packet: seq<byte>, decoded: PacketDecodeResult) {
    && decoded.success
    && 14 <= decoded.linkHeaderLength <= |packet|
    && (decoded.ipVersion == NoIp ==> decoded.transportProtocol == NoTransport)
    && (decoded.ipVersion != NoIp ==>
          && decoded.networkHeaderOffset == decoded.linkHeaderLength
          && HasBytes(packet, decoded.networkHeaderOffset, 20)
          && decoded.networkHeaderOffset + decoded.networkHeaderLength <= IpEnd(packet, decoded) <= |packet|
          && decoded.addressLength == (if decoded.ipVersion == Ipv4 then 4 else 16)
          && decoded.srcAddress[decoded.addressLength..] == ZERO_ADDRESS[decoded.addressLength..]
          && decoded.dstAddress[decoded.addressLength..] == ZERO_ADDRESS[decoded.addressLength..])
    && (decoded.transportProtocol != NoTransport ==>
          && decoded.transportHeaderOffset == decoded.networkHeaderOffset + decoded.networkHeaderLength
          && decoded.transportPayloadOffset == decoded.transportHeaderOffset + decoded.transportHeaderLength
          && decoded.transportPayloadOffset + decoded.transportPayloadLength <= IpEnd(packet, decoded))
    && (decoded.transportProtocol == Tcp ==>
          decoded.transportPayloadOffset + decoded.transportPayloadLength == IpEnd(packet, decoded))
  }

  lemma {:induction false} StripTagsFields(result: PacketDecodeResult, packet: seq<byte>, offset: nat)
    requires result.failureReason == NoFailure && result.linkHeaderLength == offset <= |packet|
    ensures var link := StripTags(result, packet, offset);
            link.failureReason == NoFailure ==>
              && offset <= link.linkHeaderLength <= |packet|
              && link == result.(vlanTagCount := link.vlanTagCount,
                                 ethertype := link.ethertype,
                                 linkHeaderLength := link.linkHeaderLength)
    decreases |packet| - offset
  {
    if IsVlanEthertype(result.ethertype) && HasBytes(packet, offset, 4) {
      StripTagsFields(StripTag(result, packet, offset), packet, offset + 4);
    }
  }

  lemma {:induction false} TransportIsWellFormed(ip: PacketDecodeResult, packet: seq<byte>, offset: nat, end: nat)
    requires WellFormedDecode(packet, ip) && ip.failureReason == NoFailure && ip.transportProtocol == NoTransport
    requires ip.ipVersion != NoIp && offset == ip.networkHeaderOffset + ip.networkHeaderLength
    requires end == IpEnd(packet, ip)
    requires TransportDecoded(ip, packet, offset, end).failureReason == NoFailure
    ensures WellFormedDecode(packet, TransportDecoded(ip, packet, offset, end))
  {
    hide ReadBe16;
    hide ReadBe32;
  }

  lemma {:induction false} Ipv4IsWellFormed(link: PacketDecodeResult, packet: seq<byte>, offset: nat)
    requires WellFormedDecode(packet, link) && link.failureReason == NoFailure && link.ipVersion == NoIp
    requires offset == link.linkHeaderLength && Ipv4Decoded(link, packet, offset).failureReason == NoFailure
    ensures WellFormedDecode(packet, Ipv4Decoded(link, packet, offset))
  {
    hide TransportDecoded;
    hide ReadBe16;
    var ip := Ipv4Header(link, packet, offset);
    assert WellFormedDecode(packet, ip);
    if Ipv4Decoded(link, packet, offset) != ip {
      TransportIsWellFormed(ip, packet, offset + ip.networkHeaderLength, IpEnd(packet, ip));
    }
  }

  lemma {:induction false} Ipv6IsWellFormed(link: PacketDecodeResult, packet: seq<byte>, offset: nat)
    requires WellFormedDecode(packet, link) && link.failureReason == NoFailure && link.ipVersion == NoIp
    requires offset == link.linkHeaderLength && Ipv6Decoded(link, packet, offset).failureReason == NoFailure
    ensures WellFormedDecode(packet, Ipv6Decoded(link, packet, offset))
  {
    var ip := Ipv6Header(link, packet, offset);
    assert WellFormedDecode(packet, ip);
    TransportIsWellFormed(ip, packet, offset + ip.networkHeaderLength, IpEnd(packet, ip));
  }

  /** Every decode without failure is well formed. */
  lemma {:induction false} DecodedIsWellFormed(packet: seq<byte>)
    requires Decoded(packet).failureReason == NoFailure
    ensures WellFormedDecode(packet, Decoded(packet))
  {
    StripTagsFields(EthernetHeader(packet), packet, 14);
    var link := StripTags(EthernetHeader(packet), packet, 14);
    if link.ethertype == ETHERTYPE_IPV4 {
      Ipv4IsWellFormed(link, packet, link.linkHeaderLength);
    } else if link.ethertype == ETHERTYPE_IPV6 {
      Ipv6IsWellFormed(link, packet, link.linkHeaderLength);
    }
  }

  // ---------------------------------------------------------------------------------------------
  // Prefix stability

  lemma {:induction false} TransportAgrees(result: PacketDecodeResult, packet: seq<byte>, offset: nat, end: nat, n: nat)
    requires offset <= end <= n <= |packet|
    ensures TransportDecoded(result, packet[..n], offset, end) == TransportDecoded(result, packet, offset, end)
  {
  }

  lemma {:induction false} Ipv4Agrees(result: PacketDecodeResult, packet: seq<byte>, offset: nat, n: nat)
    requires HasBytes(packet, offset, 20) && offset + 20 <= n <= |packet|
    requires packet[offset] % 16 * 4 <= ReadBe16(packet, offset + 2)
    requires offset + ReadBe16(packet, offset + 2) <= n
    ensures Ipv4Decoded(result, packet[..n], offset) == Ipv4Decoded(result, packet, offset)
  {
    hide TransportDecoded;
    var prefix := packet[..n];
    var ihl, totalLength := packet[offset] % 16 * 4, ReadBe16(packet, offset + 2);
    assert ReadBe16(prefix, offset + 2) == totalLength && ReadBe16(prefix, offset + 6) == ReadBe16(packet, offset + 6);
    assert Ipv4Header(result, prefix, offset) == Ipv4Header(result, packet, offset) by {
      assert prefix[offset + 12..offset + 16] == packet[offset + 12..offset + 16];
      assert prefix[offset + 16..offset + 20] == packet[offset + 16..offset + 20];
    }
    TransportAgrees(Ipv4Header(result, packet, offset), packet, offset + ihl, offset + totalLength, n);
  }

  lemma {:induction false} Ipv6Agrees(result: PacketDecodeResult, packet: seq<byte>, offset: nat, n: nat)
    requires HasBytes(packet, offset, 40) && offset + 40 + ReadBe16(packet, offset + 4) <= n <= |packet|
    ensures Ipv6Decoded(result, packet[..n], offset) == Ipv6Decoded(result, packet, offset)
  {
    hide TransportDecoded;
    var prefix := packet[..n];
    var totalLength := 40 + ReadBe16(packet, offset + 4);
    assert ReadBe16(prefix, offset + 4) == ReadBe16(packet, offset + 4);
    assert Ipv6Header(result, prefix, offset) == Ipv6Header(result, packet, offset) by {
      assert prefix[offset + 8..offset + 24] == packet[offset + 8..offset + 24];
      assert prefix[offset + 24..offset + 40] == packet[offset + 24..offset + 40];
    }
    TransportAgrees(Ipv6Header(result, packet, offset), packet, offset + 40, offset + totalLength, n);
  }

  /** Cutting a packet anywhere after its IP packet does not change how the network layer decodes. */
  lemma {:induction false} NetworkAgrees(result: PacketDecodeResult, packet: seq<byte>, offset: nat, n: nat)
    requires offset <= n <= |packet|
    requires result.failureReason == NoFailure
    requires
      || NetworkDecoded(result, packet[..n], offset).failureReason == NoFailure
      || (NetworkDecoded(result, packet, offset).failureReason == NoFailure
          && (result.ethertype == ETHERTYPE_IPV4 ==> offset + ReadBe16(packet, offset + 2) <= n)
          && (result.ethertype == ETHERTYPE_IPV6 ==> offset + 40 + ReadBe16(packet, offset + 4) <= n))
    ensures NetworkDecoded(result, packet[..n], offset) == NetworkDecoded(result, packet, offset)
  {
    if result.ethertype == ETHERTYPE_IPV4 {
      Ipv4Agrees(result, packet, offset, n);
    } else if result.ethertype == ETHERTYPE_IPV6 {
      Ipv6Agrees(result, packet, offset, n);
    }
  }

  /** Cutting a packet anywhere after its VLAN tags does not change how they are stripped. */
  lemma {:induction false} StripTagsAgree(result: PacketDecodeResult, packet: seq<byte>, offset: nat, n: nat)
    requires result.failureReason == NoFailure && result.linkHeaderLength == offset <= n <= |packet|
    requires
      || StripTags(result, packet[..n], offset).failureReason == NoFailure
      || (StripTags(result, packet, offset).failureReason == NoFailure
          && StripTags(result, packet, offset).linkHeaderLength <= n)
    ensures StripTags(result, packet[..n], offset) == StripTags(result, packet, offset)
    decreases |packet| - offset
  {
    if IsVlanEthertype(result.ethertype) {
      StripTagsFields(StripTag(result, packet, offset), packet, offset + 4);
      assert StripTag(result, packet[..n], offset) == StripTag(result, packet, offset);
      StripTagsAgree(StripTag(result, packet, offset), packet, offset + 4, n);
    }
  }

  /** If a prefix of a packet decodes without failure, the whole packet decodes to the same result. */
  lemma {:induction false} PrefixStability(packet: seq<byte>, n: nat)
    requires n <= |packet|
    requires Decoded(packet[..n]).failureReason == NoFailure
    ensures Decoded(packet) == Decoded(packet[..n])
  {
    assert EthernetHeader(packet[..n]) == EthernetHeader(packet);
    StripTagsAgree(EthernetHeader(packet), packet, 14, n);
    StripTagsFields(EthernetHeader(packet), packet[..n], 14);
    var link := StripTags(EthernetHeader(packet), packet, 14);
    NetworkAgrees(link, packet, link.linkHeaderLength, n);
  }

  lemma {:induction false} KeptIpPacketDecodes(packet: seq<byte>, n: nat)
    requires n <= |packet|
    requires Decoded(packet).failureReason == NoFailure && Decoded(packet).ipVersion != NoIp
    requires WellFormedDecode(packet, Decoded(packet)) && IpEnd(packet, Decoded(packet)) <= n
    ensures Decoded(packet[..n]) == Decoded(packet)
  {
    hide NetworkDecoded;
    hide StripTags;
    assert EthernetHeader(packet[..n]) == EthernetHeader(packet);
    StripTagsFields(EthernetHeader(packet), packet, 14);
    var link := StripTags(EthernetHeader(packet), packet, 14);
    NetworkFields(link, packet, link.linkHeaderLength);
    StripTagsAgree(EthernetHeader(packet), packet, 14, n);
    NetworkAgrees(link, packet, link.linkHeaderLength, n);
  }

  /** A decodable IP packet cut to `n` bytes decodes without failure exactly when the whole IP packet is kept. */
  lemma {:induction false} CutDecodesIffIpPacketKept(packet: seq<byte>, n: nat)
    requires n <= |packet|
    requires Decoded(packet).failureReason == NoFailure && Decoded(packet).ipVersion != NoIp
    ensures WellFormedDecode(packet, Decoded(packet))
    ensures Decoded(packet[..n]).failureReason == NoFailure <==> IpEnd(packet, Decoded(packet)) <= n
  {
    DecodedIsWellFormed(packet);
    if IpEnd(packet, Decoded(packet)) <= n {
      KeptIpPacketDecodes(packet, n);
    } else if Decoded(packet[..n]).failureReason == NoFailure {
      PrefixStability(packet, n);
      DecodedIsWellFormed(packet[..n]);
      SameIpEnd(packet, n, Decoded(packet));
    }
  }

  lemma {:induction false} SameIpEnd(packet: seq<byte>, n: nat, decoded: PacketDecodeResult)
    requires n <= |packet| && decoded.ipVersion != NoIp
    requires HasBytes(packet[..n], decoded.networkHeaderOffset, 20)
    ensures IpEnd(packet[..n], decoded) == IpEnd(packet, decoded)
  {
  }

  /** A network-layer decode without failure sets the IP version by EtherType and touches nothing else otherwise. */
  lemma {:induction false} NetworkFields(result: PacketDecodeResult, packet: seq<byte>, offset: nat)
    requires result.ipVersion == NoIp && NetworkDecoded(result, packet, offset).failureReason == NoFailure
    ensures result.ethertype == ETHERTYPE_IPV4 ==>
              NetworkDecoded(result, packet, offset).ipVersion == Ipv4
              && NetworkDecoded(result, packet, offset).networkHeaderOffset == offset
    ensures result.ethertype == ETHERTYPE_IPV6 ==>
              NetworkDecoded(result, packet, offset).ipVersion == Ipv6
              && NetworkDecoded(result, packet, offset).networkHeaderOffset == offset
    ensures result.ethertype != ETHERTYPE_IPV4 && result.ethertype != ETHERTYPE_IPV6 ==>
              NetworkDecoded(result, packet, offset) == result
  {
  }
}
