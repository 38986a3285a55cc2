/** Long-header packets as RFC 9000 serializes them (sections 16, 17.2, 17.2.2 and 17.2.5), and the parser and the
    walk over coalesced packets as the inverse: what is serialized is read back, and what is read was serialized. */
module QuicPackets {
  import opened Bytes
  import opened Quic

  /** The `n` base-256 digits of a number, most significant first. */
  function Digits(value: nat, n: nat): (digits: seq<byte>)
    ensures |digits| == n
  {
    if n == 0 then [] else Digits(value / 0x100, n - 1) + [value % 0x100]
  }

  function Power256(n: nat): nat {
    if n == 0 then 1 else 0x100 * Power256(n - 1)
  }

  lemma {:induction false} DigitsSpellNumber(value: nat, n: nat)
    requires value < Power256(n)
    ensures BigEndian(Digits(value, n)) == value
  {
    if n > 0 {
      DigitsSpellNumber(value / 0x100, n - 1);
      assert Digits(value, n)[..n - 1] == Digits(value / 0x100, n - 1);
    }
  }

  lemma {:induction false} FirstDigitBound(value: nat, n: nat, bound: nat)
    requires n > 0 && value < bound * Power256(n - 1) && bound <= 0x100
    ensures Digits(value, n)[0] < bound
    ensures value < Power256(n)
  {
    if n > 1 {
      assert bound * Power256(n - 1) == 0x100 * (bound * Power256(n - 2));
      FirstDigitBound(value / 0x100, n - 1, bound);
      assert Digits(value, n)[0] == Digits(value / 0x100, n - 1)[0];
    } else {
      assert Digits(value, 1) == [value % 0x100];
    }
  }

  // ---------------------------------------------------------------------------------------------
  // Variable-length integers

  /** Which of the four sizes a varint is written in: 1, 2, 4 or 8 bytes. */
  type SizeClass = k: nat | k < 4 witness 0

  function SizeOf(k: SizeClass): (size: nat)
    ensures size in {1, 2, 4, 8}
  {
    if k == 0 then 1 else if k == 1 then 2 else if k == 2 then 4 else 8
  }

  /** The value fits in the 6, 14, 30 or 62 bits of its size. */
  predicate Fits(value: nat, k: SizeClass) {
    value < 0x40 * Power256(SizeOf(k) - 1)
  }

  function EncodeVarint(value: nat, k: SizeClass): (bytes: seq<byte>)
    requires Fits(value, k)
    ensures |bytes| == SizeOf(k)
  {
    FirstDigitBound(value, SizeOf(k), 0x40);
    var digits := Digits(value, SizeOf(k));
    var first: int := digits[0];
    [first + 0x40 * k] + digits[1..]
  }

  /** Every value below 2^62 fits in eight bytes. */
  lemma {:induction false} EightBytesFit(value: nat)
    ensures value < 0x4000_0000_0000_0000 <==> Fits(value, 3)
  {
    assert Power256(7) == 0x100 * (0x100 * (0x100 * (0x100 * (0x100 * (0x100 * (0x100 * Power256(0))))))) by {
      assert Power256(7) == 0x100 * Power256(6) && Power256(6) == 0x100 * Power256(5);
      assert Power256(5) == 0x100 * Power256(4) && Power256(4) == 0x100 * Power256(3);
      assert Power256(3) == 0x100 * Power256(2) && Power256(2) == 0x100 * Power256(1);
      assert Power256(1) == 0x100 * Power256(0);
    }
  }

  /** The first byte of a varint tells its size; without its top two bits, the bytes spell the value. */
  lemma {:induction false} VarintShape(value: nat, k: SizeClass)
    requires Fits(value, k)
    ensures var code := EncodeVarint(value, k);
            VarintSize(code[0]) == SizeOf(k) == |code| && BigEndian([code[0] % 0x40] + code[1..]) == value
  {
    hide BigEndian;
    hide Power256;
    FirstDigitBound(value, SizeOf(k), 0x40);
    DigitsSpellNumber(value, SizeOf(k));
    var code := EncodeVarint(value, k);
    assert [code[0] % 0x40] + code[1..] == Digits(value, SizeOf(k));
  }

  /** A varint reads back as the encoded value, in all four sizes and wherever it stands. */
  lemma {:induction false} VarintRoundTrip(payload: seq<byte>, offset: nat, value: nat, k: SizeClass, rest: seq<byte>)
    requires Fits(value, k) && offset <= |payload|
    requires payload[offset..] == EncodeVarint(value, k) + rest
    ensures Varint(payload, offset) == Some(Read(value, offset + SizeOf(k)))
    ensures payload[offset + SizeOf(k)..] == rest
  {
    hide BigEndian;
    hide Digits;
    hide Power256;
    hide EncodeVarint;
    hide VarintSize;
    hide SizeOf;
    var code := EncodeVarint(value, k);
    VarintShape(value, k);
    DropHead(payload, offset, code, rest);
    assert payload[offset..offset + |code|][0] == payload[offset];
    assert payload[offset + 1..offset + |code|] == code[1..];
  }

  // ---------------------------------------------------------------------------------------------
  // Long-header packets

  /** The types of section 17.2 of RFC 9000, in the order of their values. */
  datatype PacketType = Initial | ZeroRtt | Handshake | Retry
  {
    function Value(): byte {
      match this
      case Initial => 0
      case ZeroRtt => 1
      case Handshake => 2
      case Retry => 3
    }
  }

  /** A long-header packet. Its first byte carries the header form, the fixed bit, the packet type and four
      type-specific bits; only an Initial has a token; a Retry has no Length field. */
  datatype RawPacket = RawPacket(
    packetType: PacketType,
    fixedBit: bool,
    typeSpecificBits: byte,
    version: u32,
    dcid: seq<byte>,
    scid: seq<byte>,
    token: seq<byte>,
    tokenSize: SizeClass,
    body: seq<byte>,
    bodySize: SizeClass)
  {
    function First(): byte
      requires typeSpecificBits < 0x10
    {
      0x80 + (if fixedBit then 0x40 else 0) + 0x10 * packetType.Value() + typeSpecificBits
    }
  }

  predicate ValidPacket(p: RawPacket) {
    && p.typeSpecificBits < 0x10
    && p.version != 0
    && |p.dcid| <= 20
    && |p.scid| <= 20
    && (p.packetType.Initial? ==> Fits(|p.token|, p.tokenSize))
    && (!p.packetType.Retry? ==> Fits(|p.body|, p.bodySize))
  }

  function EncodeBe32(value: u32): (bytes: seq<byte>)
    ensures |bytes| == 4 && ReadBe32(bytes, 0) == value
  {
    var high, low := value / 0x1_0000, value % 0x1_0000;
    [high / 0x100, high % 0x100, low / 0x100, low % 0x100]
  }

  function EncodeCid(cid: seq<byte>): seq<byte>
    requires |cid| <= 20
  {
    [|cid|] + cid
  }

  /** The part after the connection IDs. */
  function EncodeRemainder(p: RawPacket): seq<byte>
    requires ValidPacket(p)
  {
    if p.packetType.Retry? then p.body
    else
      (if p.packetType.Initial? then EncodeVarint(|p.token|, p.tokenSize) + p.token else [])
      + (EncodeVarint(|p.body|, p.bodySize) + p.body)
  }

  function EncodePacket(p: RawPacket): seq<byte>
    requires ValidPacket(p)
  {
    [p.First()] + EncodeBe32(p.version) + EncodeCid(p.dcid) + EncodeCid(p.scid) + EncodeRemainder(p)
  }

  function InfoOf(p: RawPacket): LongHeaderInfo
    requires ValidPacket(p)
  {
    LongHeaderInfo(|EncodePacket(p)|, p.packetType.Value(), p.version, Cid(p.dcid), Cid(p.scid))
  }

  lemma {:induction false} DropHead(payload: seq<byte>, offset: nat, head: seq<byte>, rest: seq<byte>)
    requires offset <= |payload| && payload[offset..] == head + rest
    ensures offset + |head| <= |payload|
    ensures payload[offset..offset + |head|] == head
    ensures payload[offset + |head|..] == rest
  {
    assert payload[offset..offset + |head|] == payload[offset..][..|head|];
    assert payload[offset + |head|..] == payload[offset..][|head|..];
  }

  lemma {:induction false} CidRoundTrip(payload: seq<byte>, offset: nat, cid: seq<byte>, rest: seq<byte>)
    requires |cid| <= 20 && offset <= |payload|
    requires payload[offset..] == EncodeCid(cid) + rest
    ensures ReadConnectionId(payload, offset) == Some(Read(Cid(cid), offset + 1 + |cid|))
    ensures payload[offset + 1 + |cid|..] == rest
  {
    assert EncodeCid(cid) + rest == [|cid|] + (cid + rest);
    DropHead(payload, offset, [|cid|], cid + rest);
    assert payload[offset] == payload[offset..offset + 1][0];
    DropHead(payload, offset + 1, cid, rest);
  }

  lemma {:induction false} Regroup<T>(a: seq<T>, b: seq<T>, c: seq<T>, d: seq<T>, e: seq<T>, f: seq<T>)
    ensures a + b + c + d + e + f == a + (b + (c + (d + (e + f))))
  {
  }

  /** The fixed part of a long header: first byte, version and connection IDs. */
  lemma {:induction false} FixedPartRoundTrip(payload: seq<byte>, start: nat, p: RawPacket, rest: seq<byte>)
    requires ValidPacket(p) && start <= |payload|
    requires payload[start..] == EncodePacket(p) + rest
    ensures HasBytes(payload, start, 7) && payload[start] == p.First() && ReadBe32(payload, start + 1) == p.version
    ensures ReadConnectionId(payload, start + 5) == Some(Read(Cid(p.dcid), start + 6 + |p.dcid|))
    ensures ReadConnectionId(payload, start + 6 + |p.dcid|) == Some(Read(Cid(p.scid), start + 7 + |p.dcid| + |p.scid|))
    ensures start + 7 + |p.dcid| + |p.scid| <= |payload|
    ensures payload[start + 7 + |p.dcid| + |p.scid|..] == EncodeRemainder(p) + rest
  {
    hide EncodeRemainder;
    hide ReadConnectionId;
    hide EncodeCid;
    hide EncodeBe32;
    hide ReadBe32;
    var remainder := EncodeRemainder(p) + rest;
    var scidOn := EncodeCid(p.scid) + remainder;
    var dcidOn := EncodeCid(p.dcid) + scidOn;
    Regroup([p.First()], EncodeBe32(p.version), EncodeCid(p.dcid), EncodeCid(p.scid), EncodeRemainder(p), rest);
    DropHead(payload, start, [p.First()], EncodeBe32(p.version) + dcidOn);
    assert payload[start] == payload[start..start + 1][0];
    DropHead(payload, start + 1, EncodeBe32(p.version), dcidOn);
    SliceBe32(payload, start + 1, EncodeBe32(p.version));
    CidRoundTrip(payload, start + 5, p.dcid, scidOn);
    CidRoundTrip(payload, start + 6 + |p.dcid|, p.scid, remainder);
  }

  lemma {:induction false} SliceBe32(payload: seq<byte>, offset: nat, part: seq<byte>)
    requires |part| == 4 && offset + 4 <= |payload| && payload[offset..offset + 4] == part
    ensures ReadBe32(payload, offset) == ReadBe32(part, 0)
  {
    assert forall i :: 0 <= i < 4 ==> payload[offset + i] == part[i];
  }

  /** One packet parses back to its header; a Retry does so when it is the last thing in the datagram. */
  lemma {:induction false} PacketRoundTrip(payload: seq<byte>, start: nat, p: RawPacket, rest: seq<byte>)
    requires ValidPacket(p) && start <= |payload|
    requires payload[start..] == EncodePacket(p) + rest
    requires p.packetType.Retry? ==> rest == []
    ensures LongHeaderAt(payload, start) == Some(InfoOf(p))
  {
    hide Varint;
    hide EncodeVarint;
    hide ReadConnectionId;
    hide ReadBe32;
    hide EncodeRemainder;
    hide EncodeBe32;
    hide LengthFieldOffset;
    FixedPartRoundTrip(payload, start, p, rest);
    var offset := start + 7 + |p.dcid| + |p.scid|;
    assert |EncodePacket(p)| == offset - start + |EncodeRemainder(p)|;
    if !p.packetType.Retry? {
      LengthFieldRoundTrip(payload, offset, p, rest);
      var at := LengthFieldOffset(payload, p.packetType.Value(), offset).value;
      VarintRoundTrip(payload, at, |p.body|, p.bodySize, p.body + rest);
      DropHead(payload, at + SizeOf(p.bodySize), p.body, rest);
    }
  }

  lemma {:induction false} LengthFieldRoundTrip(payload: seq<byte>, offset: nat, p: RawPacket, rest: seq<byte>)
    requires ValidPacket(p) && !p.packetType.Retry? && offset <= |payload|
    requires payload[offset..] == EncodeRemainder(p) + rest
    ensures var at := LengthFieldOffset(payload, p.packetType.Value(), offset);
            && at.Some?
            && at.value == offset + |EncodeRemainder(p)| - |p.body| - SizeOf(p.bodySize) <= |payload|
            && payload[at.value..] == EncodeVarint(|p.body|, p.bodySize) + (p.body + rest)
  {
    hide Varint;
    hide EncodeVarint;
    hide EncodeRemainder;
    hide Fits;
    RemainderEncoding(p);
    var lengthOn := EncodeVarint(|p.body|, p.bodySize) + (p.body + rest);
    if p.packetType.Initial? {
      var tokenCode := EncodeVarint(|p.token|, p.tokenSize);
      RegroupFour(tokenCode, p.token, EncodeVarint(|p.body|, p.bodySize), p.body, rest);
      VarintRoundTrip(payload, offset, |p.token|, p.tokenSize, p.token + lengthOn);
      DropHead(payload, offset + SizeOf(p.tokenSize), p.token, lengthOn);
    } else {
      RegroupThree(EncodeVarint(|p.body|, p.bodySize), p.body, rest);
    }
  }

  lemma {:induction false} RemainderEncoding(p: RawPacket)
    requires ValidPacket(p) && !p.packetType.Retry?
    ensures EncodeRemainder(p)
            == if p.packetType.Initial?
               then EncodeVarint(|p.token|, p.tokenSize) + p.token + (EncodeVarint(|p.body|, p.bodySize) + p.body)
               else EncodeVarint(|p.body|, p.bodySize) + p.body
  {
    hide EncodeVarint;
    hide Fits;
  }

  lemma {:induction false} RegroupFour<T>(a: seq<T>, b: seq<T>, c: seq<T>, d: seq<T>, e: seq<T>)
    ensures a + b + (c + d) + e == a + (b + (c + (d + e)))
  {
  }

  // ---------------------------------------------------------------------------------------------
  // Datagrams of coalesced packets

  function EncodePackets(packets: seq<RawPacket>): seq<byte>
    requires forall p :: p in packets ==> ValidPacket(p)
  {
    if packets == [] then [] else EncodePacket(packets[0]) + EncodePackets(packets[1..])
  }

  function InfosOf(packets: seq<RawPacket>): seq<LongHeaderInfo>
    requires forall p :: p in packets ==> ValidPacket(p)
  {
    if packets == [] then [] else [InfoOf(packets[0])] + InfosOf(packets[1..])
  }

  /** Long-header packets followed by an optional short-header packet; nothing follows a Retry. */
  predicate ValidDatagram(packets: seq<RawPacket>, tail: seq<byte>) {
    && (forall p :: p in packets ==> ValidPacket(p))
    && (tail != [] ==> tail[0] < 0x80)
    && (forall i :: 0 <= i < |packets| && packets[i].packetType.Retry? ==> i == |packets| - 1 && tail == [])
  }

  lemma {:induction false} RegroupThree<T>(a: seq<T>, b: seq<T>, c: seq<T>)
    ensures a + b + c == a + (b + c)
  {
  }

  lemma {:induction false} ValidFirst(packets: seq<RawPacket>, tail: seq<byte>)
    requires ValidDatagram(packets, tail) && packets != []
    ensures ValidPacket(packets[0]) && ValidDatagram(packets[1..], tail)
    ensures packets[0].packetType.Retry? ==> packets[1..] == [] && tail == []
  {
    hide ValidPacket;
    assert packets[0] in packets;
    assert forall i :: 0 <= i < |packets| - 1 ==> packets[1..][i] == packets[i + 1];
  }

  lemma {:induction false} ValidTail(packets: seq<RawPacket>, tail: seq<byte>)
    requires ValidDatagram(packets, tail)
    ensures forall p :: p in packets ==> ValidPacket(p)
    ensures tail != [] ==> tail[0] < 0x80
  {
  }

  /** The walk recovers every long header of a coalesced datagram and stops exactly at the tail. */
  lemma {:induction false} CoalescedRoundTrip(payload: seq<byte>, start: nat, packets: seq<RawPacket>, tail: seq<byte>)
    requires ValidDatagram(packets, tail) && start <= |payload|
    requires payload[start..] == EncodePackets(packets) + tail
    ensures Walk(payload, start) == Walked(InfosOf(packets), |payload| - |tail|, false)
    decreases |packets|
  {
    hide LongHeaderAt;
    hide EncodePacket;
    hide ReadConnectionId;
    hide EncodeRemainder;
    hide ReadBe32;
    hide ValidDatagram;
    hide ValidPacket;
    ValidTail(packets, tail);
    if packets == [] {
      assert tail != [] ==> payload[start] == payload[start..][0] == tail[0];
    } else {
      var p, others := packets[0], packets[1..];
      ValidFirst(packets, tail);
      ValidTail(others, tail);
      var rest := EncodePackets(others) + tail;
      RegroupThree(EncodePacket(p), EncodePackets(others), tail);
      FirstByte(payload, start, p, rest);
      PacketRoundTrip(payload, start, p, rest);
      LongHeaderSize(payload, start);
      DropHead(payload, start, EncodePacket(p), rest);
      CoalescedRoundTrip(payload, start + |EncodePacket(p)|, others, tail);
    }
  }

  lemma {:induction false} FirstByte(payload: seq<byte>, start: nat, p: RawPacket, rest: seq<byte>)
    requires ValidPacket(p) && start <= |payload|
    requires payload[start..] == EncodePacket(p) + rest
    ensures start < |payload| && IsLongHeader(payload[start])
  {
    hide EncodeRemainder;
    FixedPartRoundTrip(payload, start, p, rest);
  }
}
