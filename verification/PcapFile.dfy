/** The classic PCAP file format as the writer and the reader of the repository know it
    (src/writer/PcapWriter.cpp, src/offline/PcapReader.cpp): what a file is, what reading one means,
    and the round trip between the two. */
module PcapFile {
  import opened Bytes

  const GLOBAL_HEADER_SIZE: nat := 24
  const PACKET_HEADER_SIZE: nat := 16
  const ETHERNET_LINK_TYPE: u32 := 1

  datatype Endianness = Little | Big

  datatype TimePrecision = Microsecond | Nanosecond

  // ---------------------------------------------------------------------------------------------
  // Integers

  function ReadU16(bytes: seq<byte>, offset: nat, endianness: Endianness): u16
    requires HasBytes(bytes, offset, 2)
  {
    if endianness == Little then ReadLe16(bytes, offset) else ReadBe16(bytes, offset)
  }

  function ReadU32(bytes: seq<byte>, offset: nat, endianness: Endianness): u32
    requires HasBytes(bytes, offset, 4)
  {
    if endianness == Little then ReadLe32(bytes, offset) else ReadBe32(bytes, offset)
  }

  function EncodeU16(value: u16, endianness: Endianness): (bytes: seq<byte>)
    ensures |bytes| == 2 && ReadU16(bytes, 0, endianness) == value
  {
    if endianness == Little then [value % 0x100, value / 0x100] else [value / 0x100, value % 0x100]
  }

  function EncodeU32(value: u32, endianness: Endianness): (bytes: seq<byte>)
    ensures |bytes| == 4 && ReadU32(bytes, 0, endianness) == value
  {
    var high, low := value / 0x1_0000, value % 0x1_0000;
    if endianness == Little
    then [low % 0x100, low / 0x100, high % 0x100, high / 0x100]
    else [high / 0x100, high % 0x100, low / 0x100, low % 0x100]
  }

  /** An integer reads back wherever it stands. */
  lemma {:induction false} ReadBack(bytes: seq<byte>, offset: nat, part: seq<byte>, endianness: Endianness)
    requires offset + |part| <= |bytes| && bytes[offset..offset + |part|] == part
    ensures |part| == 2 ==> ReadU16(bytes, offset, endianness) == ReadU16(part, 0, endianness)
    ensures |part| == 4 ==> ReadU32(bytes, offset, endianness) == ReadU32(part, 0, endianness)
  {
    assert forall i :: 0 <= i < |part| ==> bytes[offset + i] == part[i];
  }

  // ---------------------------------------------------------------------------------------------
  // The global header

  function MagicBytes(endianness: Endianness, precision: TimePrecision): seq<byte> {
    match (endianness, precision)
    case (Little, Microsecond) => [0xd4, 0xc3, 0xb2, 0xa1]
    case (Big, Microsecond) => [0xa1, 0xb2, 0xc3, 0xd4]
    case (Little, Nanosecond) => [0x4d, 0x3c, 0xb2, 0xa1]
    case (Big, Nanosecond) => [0xa1, 0xb2, 0x3c, 0x4d]
  }

  function DetectMagic(magic: seq<byte>): Option<(Endianness, TimePrecision)> {
    if magic == [0xd4, 0xc3, 0xb2, 0xa1] then Some((Little, Microsecond))
    else if magic == [0xa1, 0xb2, 0xc3, 0xd4] then Some((Big, Microsecond))
    else if magic == [0x4d, 0x3c, 0xb2, 0xa1] then Some((Little, Nanosecond))
    else if magic == [0xa1, 0xb2, 0x3c, 0x4d] then Some((Big, Nanosecond))
    else None
  }

  datatype GlobalHeader = GlobalHeader(
    endianness: Endianness,
    precision: TimePrecision,
    versionMajor: u16,
    versionMinor: u16,
    reserved1: u32,
    reserved2: u32,
    snaplen: u32,
    linkType: u32)

  datatype OpenError =
    | TruncatedGlobalHeader
    | PcapNgNotSupported
    | UnknownMagic
    | UnsupportedVersion
    | ZeroSnaplen
    | UnsupportedLinkType

  datatype Opened = Header(header: GlobalHeader) | Refused(error: OpenError)

  function ParseGlobalHeader(file: seq<byte>): Opened {
    if |file| < GLOBAL_HEADER_SIZE then Refused(TruncatedGlobalHeader)
    else if ReadU32(file, 0, Big) == 0x0A0D_0D0A then Refused(PcapNgNotSupported)
    else
      match DetectMagic(file[..4])
      case None => Refused(UnknownMagic)
      case Some((e, precision)) =>
        var header := GlobalHeader(
          e, precision, ReadU16(file, 4, e), ReadU16(file, 6, e), ReadU32(file, 8, e), ReadU32(file, 12, e),
          ReadU32(file, 16, e), ReadU32(file, 20, e));
        if header.versionMajor != 2 || header.versionMinor != 4 then Refused(UnsupportedVersion)
        else if header.snaplen == 0 then Refused(ZeroSnaplen)
        else if header.linkType != ETHERNET_LINK_TYPE then Refused(UnsupportedLinkType)
        else Header(header)
  }

  function EncodeGlobalHeader(endianness: Endianness, precision: TimePrecision, snaplen: u32): (bytes: seq<byte>)
    ensures |bytes| == GLOBAL_HEADER_SIZE
  {
    MagicBytes(endianness, precision)
    + EncodeU16(2, endianness) + EncodeU16(4, endianness)
    + EncodeU32(0, endianness) + EncodeU32(0, endianness)
    + EncodeU32(snaplen, endianness) + EncodeU32(1, endianness)
  }

  // ---------------------------------------------------------------------------------------------
  // Packet records

  /** A packet as it is stored: its timestamp fields, its bytes and its original length. */
  datatype RawEntry = RawEntry(tsSec: u32, tsFraction: u32, originalLength: u32, bytes: seq<byte>)

  type Entry = e: RawEntry | |e.bytes| <= e.originalLength witness RawEntry(0, 0, 0, [])

  function EncodeRecord(entry: Entry, endianness: Endianness): (bytes: seq<byte>)
    ensures |bytes| == PACKET_HEADER_SIZE + |entry.bytes|
  {
    EncodeU32(entry.tsSec, endianness) + EncodeU32(entry.tsFraction, endianness)
    + EncodeU32(|entry.bytes|, endianness) + EncodeU32(entry.originalLength, endianness)
    + entry.bytes
  }

  function EncodeRecords(entries: seq<Entry>, endianness: Endianness): seq<byte> {
    if entries == [] then [] else EncodeRecord(entries[0], endianness) + EncodeRecords(entries[1..], endianness)
  }

  function EncodeFile(endianness: Endianness, precision: TimePrecision, snaplen: u32, entries: seq<Entry>): seq<byte> {
    EncodeGlobalHeader(endianness, precision, snaplen) + EncodeRecords(entries, endianness)
  }

  datatype Record = Record(
    packetIndex: nat,
    headerOffset: nat,
    dataOffset: nat,
    tsSec: u32,
    tsFraction: u32,
    capturedLength: u32,
    originalLength: u32,
    bytes: seq<byte>)

  /** What is missing at the end of a file that stops inside a record. */
  datatype Tail =
    | HeaderTail(fileOffset: nat, trailingBytes: nat)
    | DataTail(fileOffset: nat, expectedCapturedLength: nat, availablePayloadBytes: nat, missingPayloadBytes: nat)

  /** What the reader finds at an offset. */
  datatype Found = Next(record: Record) | EndOfFile | PastEnd | BadLengths | Incomplete(tail: Tail)

  function RecordAt(file: seq<byte>, offset: nat, index: nat, endianness: Endianness): Found {
    if offset == |file| then EndOfFile
    else if offset > |file| then PastEnd
    else if |file| - offset < PACKET_HEADER_SIZE then Incomplete(HeaderTail(offset, |file| - offset))
    else
      var tsSec := ReadU32(file, offset, endianness);
      var tsFraction := ReadU32(file, offset + 4, endianness);
      var capturedLength := ReadU32(file, offset + 8, endianness);
      var originalLength := ReadU32(file, offset + 12, endianness);
      var dataOffset := offset + PACKET_HEADER_SIZE;
      var remaining := |file| - dataOffset;
      if capturedLength > originalLength then BadLengths
      else if capturedLength > remaining then
        Incomplete(DataTail(dataOffset, capturedLength, remaining, capturedLength - remaining))
      else
        Next(Record(index, offset, dataOffset, tsSec, tsFraction, capturedLength, originalLength,
                    file[dataOffset..dataOffset + capturedLength]))
  }

  datatype Ending = CleanEnd | LengthError | IncompleteTail(tail: Tail)

  /** Everything the reader returns from an offset on, and how it ends. */
  function ReadAll(file: seq<byte>, offset: nat, index: nat, endianness: Endianness): (seq<Record>, Ending)
    requires offset <= |file|
    decreases |file| - offset
  {
    match RecordAt(file, offset, index, endianness)
    case Next(record) =>
      var (records, ending) := ReadAll(file, record.dataOffset + record.capturedLength, index + 1, endianness);
      ([record] + records, ending)
    case BadLengths => ([], LengthError)
    case Incomplete(tail) => ([], IncompleteTail(tail))
    case EndOfFile => ([], CleanEnd)
    case PastEnd => ([], CleanEnd)
  }

  // ---------------------------------------------------------------------------------------------
  // Round trip

  /** The global header reads back, in both byte orders and both precisions. */
  lemma {:induction false} GlobalHeaderRoundTrip(
    endianness: Endianness, precision: TimePrecision, snaplen: u32, rest: seq<byte>)
    requires snaplen != 0
    ensures ParseGlobalHeader(EncodeGlobalHeader(endianness, precision, snaplen) + rest)
            == Header(GlobalHeader(endianness, precision, 2, 4, 0, 0, snaplen, 1))
  {
    hide ReadU16;
    hide ReadU32;
    hide EncodeU16;
    hide EncodeU32;
    var e, file := endianness, EncodeGlobalHeader(endianness, precision, snaplen) + rest;
    assert file[..4] == MagicBytes(e, precision);
    MagicIsNotPcapNg(file, e, precision);
    assert file[4..6] == EncodeU16(2, e) && file[6..8] == EncodeU16(4, e);
    assert file[8..12] == EncodeU32(0, e) && file[12..16] == EncodeU32(0, e);
    assert file[16..20] == EncodeU32(snaplen, e) && file[20..24] == EncodeU32(1, e);
    ReadBack(file, 4, EncodeU16(2, e), e);
    ReadBack(file, 6, EncodeU16(4, e), e);
    ReadBack(file, 8, EncodeU32(0, e), e);
    ReadBack(file, 12, EncodeU32(0, e), e);
    ReadBack(file, 16, EncodeU32(snaplen, e), e);
    ReadBack(file, 20, EncodeU32(1, e), e);
  }

  lemma {:induction false} MagicIsNotPcapNg(file: seq<byte>, endianness: Endianness, precision: TimePrecision)
    requires |file| >= 4 && file[..4] == MagicBytes(endianness, precision)
    ensures ReadU32(file, 0, Big) != 0x0A0D_0D0A
    ensures DetectMagic(file[..4]) == Some((endianness, precision))
  {
    assert file[0] == file[..4][0] && file[1] == file[..4][1];
  }

  /** What is read back from stored packets, when the first record header is at `offset`. */
  function RecordsOf(entries: seq<Entry>, offset: nat, index: nat): seq<Record> {
    if entries == [] then []
    else
      var entry := entries[0];
      var dataOffset := offset + PACKET_HEADER_SIZE;
      [Record(index, offset, dataOffset, entry.tsSec, entry.tsFraction, |entry.bytes|, entry.originalLength,
              entry.bytes)]
      + RecordsOf(entries[1..], dataOffset + |entry.bytes|, index + 1)
  }

  /** The stored packets whose records lie wholly within the first `m` bytes after the global header. */
  function WholeWithin(entries: seq<Entry>, m: nat): seq<Entry> {
    if entries == [] || m < PACKET_HEADER_SIZE + |entries[0].bytes| then []
    else [entries[0]] + WholeWithin(entries[1..], m - PACKET_HEADER_SIZE - |entries[0].bytes|)
  }

  /** How a file ends that is cut `m` bytes after `offset`. */
  function EndingAt(entries: seq<Entry>, m: nat, offset: nat): Ending {
    if m == 0 || entries == [] then CleanEnd
    else
      var length := |entries[0].bytes|;
      if m < PACKET_HEADER_SIZE then IncompleteTail(HeaderTail(offset, m))
      else if m < PACKET_HEADER_SIZE + length then
        IncompleteTail(DataTail(offset + PACKET_HEADER_SIZE, length, m - PACKET_HEADER_SIZE,
                                length - (m - PACKET_HEADER_SIZE)))
      else EndingAt(entries[1..], m - PACKET_HEADER_SIZE - length, offset + PACKET_HEADER_SIZE + length)
  }

  /** The header fields of a stored packet read back, wherever its record stands. */
  lemma {:induction false} FieldsReadBack(file: seq<byte>, offset: nat, entry: Entry, endianness: Endianness)
    requires offset + PACKET_HEADER_SIZE <= |file|
    requires file[offset..offset + PACKET_HEADER_SIZE] == EncodeRecord(entry, endianness)[..PACKET_HEADER_SIZE]
    ensures ReadU32(file, offset, endianness) == entry.tsSec
    ensures ReadU32(file, offset + 4, endianness) == entry.tsFraction
    ensures ReadU32(file, offset + 8, endianness) == |entry.bytes|
    ensures ReadU32(file, offset + 12, endianness) == entry.originalLength
  {
    hide ReadU32;
    hide EncodeU32;
    var e, header := endianness, file[offset..offset + PACKET_HEADER_SIZE];
    assert file[offset..offset + 4] == header[0..4] == EncodeU32(entry.tsSec, e);
    assert file[offset + 4..offset + 8] == header[4..8] == EncodeU32(entry.tsFraction, e);
    assert file[offset + 8..offset + 12] == header[8..12] == EncodeU32(|entry.bytes|, e);
    assert file[offset + 12..offset + 16] == header[12..16] == EncodeU32(entry.originalLength, e);
    ReadBack(file, offset, EncodeU32(entry.tsSec, e), e);
    ReadBack(file, offset + 4, EncodeU32(entry.tsFraction, e), e);
    ReadBack(file, offset + 8, EncodeU32(|entry.bytes|, e), e);
    ReadBack(file, offset + 12, EncodeU32(entry.originalLength, e), e);
  }

  /** What the reader finds where a stored packet's record starts, complete or not. */
  lemma {:induction false} FirstRecord(
    file: seq<byte>, offset: nat, index: nat, entry: Entry, all: seq<byte>, endianness: Endianness)
    requires offset < |file| && |file| - offset <= |all| && file[offset..] == all[..|file| - offset]
    requires EncodeRecord(entry, endianness) <= all
    ensures var m, length, dataOffset := |file| - offset, |entry.bytes|, offset + PACKET_HEADER_SIZE;
            RecordAt(file, offset, index, endianness)
            == if m < PACKET_HEADER_SIZE then Incomplete(HeaderTail(offset, m))
               else if m < PACKET_HEADER_SIZE + length then
                 Incomplete(DataTail(dataOffset, length, m - PACKET_HEADER_SIZE, length - (m - PACKET_HEADER_SIZE)))
               else
                 Next(Record(index, offset, dataOffset, entry.tsSec, entry.tsFraction, length, entry.originalLength,
                             entry.bytes))
  {
    hide ReadU32;
    hide EncodeRecord;
    var m, code := |file| - offset, EncodeRecord(entry, endianness);
    if m >= PACKET_HEADER_SIZE {
      assert file[offset..offset + PACKET_HEADER_SIZE] == file[offset..][..PACKET_HEADER_SIZE]
             == code[..PACKET_HEADER_SIZE];
      FieldsReadBack(file, offset, entry, endianness);
      if m >= PACKET_HEADER_SIZE + |entry.bytes| {
        DataReadBack(file, offset, entry, endianness, all);
      }
    }
  }

  /** Reading a file that was cut anywhere after the global header returns the records that lie wholly
      in it, and says exactly what is missing. */
  lemma {:induction false} TruncatedRecords(
    file: seq<byte>, offset: nat, index: nat, entries: seq<Entry>, endianness: Endianness)
    requires offset <= |file| && |file| - offset <= |EncodeRecords(entries, endianness)|
    requires file[offset..] == EncodeRecords(entries, endianness)[..|file| - offset]
    ensures ReadAll(file, offset, index, endianness)
            == (RecordsOf(WholeWithin(entries, |file| - offset), offset, index),
                EndingAt(entries, |file| - offset, offset))
    decreases |entries|
  {
    hide ReadU32;
    hide EncodeRecord;
    hide EncodeRecords;
    hide RecordAt;
    hide RecordsOf;
    EncodeNone(endianness);
    var m := |file| - offset;
    if entries == [] {
      NoRecord(file, index, endianness);
      RecordsOfNone(offset, index);
    } else if m == 0 {
      NoRecord(file, index, endianness);
      RecordsOfNone(offset, index);
    } else {
      var size := PACKET_HEADER_SIZE + |entries[0].bytes|;
      EncodeCons(entries, endianness);
      FirstRecord(file, offset, index, entries[0], EncodeRecords(entries, endianness), endianness);
      if m >= size {
        OneRecordOn(file, offset, entries, endianness);
        TruncatedRecords(file, offset + size, index + 1, entries[1..], endianness);
        RecordsOfCons(entries[0], WholeWithin(entries[1..], m - size), offset, index);
      } else {
        RecordsOfNone(offset, index);
      }
    }
  }

  lemma {:induction false} NoRecord(file: seq<byte>, index: nat, endianness: Endianness)
    ensures RecordAt(file, |file|, index, endianness) == EndOfFile
  {
  }

  lemma {:induction false} EncodeNone(endianness: Endianness)
    ensures EncodeRecords([], endianness) == []
  {
  }

  lemma {:induction false} EncodeCons(entries: seq<Entry>, endianness: Endianness)
    requires entries != []
    ensures EncodeRecords(entries, endianness)
            == EncodeRecord(entries[0], endianness) + EncodeRecords(entries[1..], endianness)
  {
  }

  lemma {:induction false} RecordsOfNone(offset: nat, index: nat)
    ensures RecordsOf([], offset, index) == []
  {
  }

  lemma {:induction false} RecordsOfCons(entry: Entry, rest: seq<Entry>, offset: nat, index: nat)
    ensures var dataOffset := offset + PACKET_HEADER_SIZE;
            RecordsOf([entry] + rest, offset, index)
            == [Record(index, offset, dataOffset, entry.tsSec, entry.tsFraction, |entry.bytes|, entry.originalLength,
                       entry.bytes)]
               + RecordsOf(rest, dataOffset + |entry.bytes|, index + 1)
  {
    assert ([entry] + rest)[1..] == rest;
  }

  /** What follows the first record of a cut file is a cut of the other records. */
  lemma {:induction false} OneRecordOn(file: seq<byte>, offset: nat, entries: seq<Entry>, endianness: Endianness)
    requires entries != [] && offset + PACKET_HEADER_SIZE + |entries[0].bytes| <= |file|
    requires |file| - offset <= |EncodeRecords(entries, endianness)|
    requires file[offset..] == EncodeRecords(entries, endianness)[..|file| - offset]
    ensures var next := offset + PACKET_HEADER_SIZE + |entries[0].bytes|;
            && |file| - next <= |EncodeRecords(entries[1..], endianness)|
            && file[next..] == EncodeRecords(entries[1..], endianness)[..|file| - next]
  {
    hide EncodeRecord;
    hide EncodeRecords;
    EncodeCons(entries, endianness);
    var m, size := |file| - offset, PACKET_HEADER_SIZE + |entries[0].bytes|;
    assert file[offset + size..] == file[offset..][size..];
    assert EncodeRecords(entries, endianness)[..m][size..] == EncodeRecords(entries[1..], endianness)[..m - size];
  }

  lemma {:induction false} DataReadBack(
    file: seq<byte>, offset: nat, entry: Entry, endianness: Endianness, all: seq<byte>)
    requires offset + PACKET_HEADER_SIZE + |entry.bytes| <= |file| && |file| - offset <= |all|
    requires file[offset..] == all[..|file| - offset] && EncodeRecord(entry, endianness) <= all
    ensures file[offset + PACKET_HEADER_SIZE..offset + PACKET_HEADER_SIZE + |entry.bytes|] == entry.bytes
  {
    hide EncodeU32;
    var code := EncodeRecord(entry, endianness);
    assert file[offset + PACKET_HEADER_SIZE..offset + PACKET_HEADER_SIZE + |entry.bytes|]
           == file[offset..][PACKET_HEADER_SIZE..PACKET_HEADER_SIZE + |entry.bytes|]
           == code[PACKET_HEADER_SIZE..];
  }

  /** For every cut of a file at `n` >= 24 bytes: the header still opens, and the reader returns the
      records within `n` bytes and the exact account of the rest. */
  lemma {:induction false} TruncatedFile(
    endianness: Endianness, precision: TimePrecision, snaplen: u32, entries: seq<Entry>, n: nat)
    requires snaplen != 0
    requires GLOBAL_HEADER_SIZE <= n <= |EncodeFile(endianness, precision, snaplen, entries)|
    ensures var file := EncodeFile(endianness, precision, snaplen, entries)[..n];
            && ParseGlobalHeader(file).Header?
            && ParseGlobalHeader(file).header.endianness == endianness
            && ReadAll(file, GLOBAL_HEADER_SIZE, 0, endianness)
               == (RecordsOf(WholeWithin(entries, n - GLOBAL_HEADER_SIZE), GLOBAL_HEADER_SIZE, 0),
                   EndingAt(entries, n - GLOBAL_HEADER_SIZE, GLOBAL_HEADER_SIZE))
  {
    hide EncodeGlobalHeader;
    hide EncodeRecords;
    hide ParseGlobalHeader;
    hide ReadAll;
    var head, body := EncodeGlobalHeader(endianness, precision, snaplen), EncodeRecords(entries, endianness);
    var file := EncodeFile(endianness, precision, snaplen, entries)[..n];
    assert file == head + body[..n - GLOBAL_HEADER_SIZE];
    GlobalHeaderRoundTrip(endianness, precision, snaplen, body[..n - GLOBAL_HEADER_SIZE]);
    assert file[GLOBAL_HEADER_SIZE..] == body[..n - GLOBAL_HEADER_SIZE];
    TruncatedRecords(file, GLOBAL_HEADER_SIZE, 0, entries, endianness);
  }

  /** The bytes that the first `k` records take. */
  function SizeOfFirst(entries: seq<Entry>, k: nat): nat
    requires k <= |entries|
  {
    if k == 0 then 0 else PACKET_HEADER_SIZE + |entries[0].bytes| + SizeOfFirst(entries[1..], k - 1)
  }

  /** `m` bytes after the global header a record ends, or the first one starts. */
  ghost predicate IsBoundary(entries: seq<Entry>, m: nat) {
    exists k :: 0 <= k <= |entries| && m == SizeOfFirst(entries, k)
  }

  lemma {:induction false} BoundaryCons(entries: seq<Entry>, m: nat)
    requires entries != [] && m >= PACKET_HEADER_SIZE + |entries[0].bytes|
    ensures IsBoundary(entries, m) <==> IsBoundary(entries[1..], m - PACKET_HEADER_SIZE - |entries[0].bytes|)
  {
    var rest, less := entries[1..], m - PACKET_HEADER_SIZE - |entries[0].bytes|;
    if IsBoundary(entries, m) {
      var k :| 0 <= k <= |entries| && m == SizeOfFirst(entries, k);
      assert less == SizeOfFirst(rest, k - 1);
    }
    if IsBoundary(rest, less) {
      var k :| 0 <= k <= |rest| && less == SizeOfFirst(rest, k);
      assert m == SizeOfFirst(entries, k + 1);
    }
  }

  /** A cut file ends cleanly exactly at a record boundary; otherwise the account of the tail adds up. */
  lemma {:induction false} CleanIffBoundary(entries: seq<Entry>, m: nat, offset: nat, endianness: Endianness)
    requires m <= |EncodeRecords(entries, endianness)|
    ensures EndingAt(entries, m, offset) == CleanEnd <==> IsBoundary(entries, m)
    ensures WholeWithin(entries, m) <= entries
    ensures SizeOfFirst(entries, |WholeWithin(entries, m)|) <= m
    ensures EndingAt(entries, m, offset) != LengthError
    ensures EndingAt(entries, m, offset).IncompleteTail? ==>
              var kept := SizeOfFirst(entries, |WholeWithin(entries, m)|);
              match EndingAt(entries, m, offset).tail
              case HeaderTail(at, trailing) =>
                at == offset + kept && trailing == m - kept && 0 < trailing < PACKET_HEADER_SIZE
              case DataTail(at, expected, available, missing) =>
                && at == offset + kept + PACKET_HEADER_SIZE
                && available == m - kept - PACKET_HEADER_SIZE
                && missing > 0
                && |WholeWithin(entries, m)| < |entries|
                && available + missing == expected == |entries[|WholeWithin(entries, m)|].bytes|
    decreases |entries|
  {
    hide EncodeRecord;
    hide IsBoundary;
    if m == 0 || entries == [] {
      StartIsBoundary(entries);
    } else if m >= PACKET_HEADER_SIZE + |entries[0].bytes| {
      var size := PACKET_HEADER_SIZE + |entries[0].bytes|;
      BoundaryCons(entries, m);
      CleanIffBoundary(entries[1..], m - size, offset + size, endianness);
      var rest := WholeWithin(entries[1..], m - size);
      assert WholeWithin(entries, m) == [entries[0]] + rest && ([entries[0]] + rest)[1..] == rest;
      assert entries == [entries[0]] + entries[1..];
    } else {
      InsideIsNoBoundary(entries, m);
    }
  }

  lemma {:induction false} StartIsBoundary(entries: seq<Entry>)
    ensures IsBoundary(entries, 0)
  {
    assert SizeOfFirst(entries, 0) == 0;
  }

  lemma {:induction false} InsideIsNoBoundary(entries: seq<Entry>, m: nat)
    requires entries != [] && 0 < m < PACKET_HEADER_SIZE + |entries[0].bytes|
    ensures !IsBoundary(entries, m)
  {
  }

  lemma {:induction false} WholeFile(entries: seq<Entry>, offset: nat, endianness: Endianness)
    ensures WholeWithin(entries, |EncodeRecords(entries, endianness)|) == entries
    ensures EndingAt(entries, |EncodeRecords(entries, endianness)|, offset) == CleanEnd
    decreases |entries|
  {
    hide EncodeRecord;
    if entries != [] {
      WholeFile(entries[1..], offset + PACKET_HEADER_SIZE + |entries[0].bytes|, endianness);
    }
  }

  /** Every file reads back to the packets stored in it, in order, with a clean end, in both byte orders. */
  lemma {:induction false} FileRoundTrip(
    endianness: Endianness, precision: TimePrecision, snaplen: u32, entries: seq<Entry>)
    requires snaplen != 0
    ensures var file := EncodeFile(endianness, precision, snaplen, entries);
            && ParseGlobalHeader(file)
               == Header(GlobalHeader(endianness, precision, 2, 4, 0, 0, snaplen, 1))
            && |file| >= GLOBAL_HEADER_SIZE
            && ReadAll(file, GLOBAL_HEADER_SIZE, 0, endianness) == (RecordsOf(entries, GLOBAL_HEADER_SIZE, 0), CleanEnd)
  {
    hide EncodeGlobalHeader;
    hide EncodeRecords;
    hide ParseGlobalHeader;
    hide ReadAll;
    var file := EncodeFile(endianness, precision, snaplen, entries);
    assert file[..|file|] == file;
    GlobalHeaderRoundTrip(endianness, precision, snaplen, EncodeRecords(entries, endianness));
    TruncatedFile(endianness, precision, snaplen, entries, |file|);
    WholeFile(entries, GLOBAL_HEADER_SIZE, endianness);
  }

  /** Record headers tile the file: each starts where the data of the one before ends. */
  lemma {:induction false} RecordsTile(entries: seq<Entry>, offset: nat, index: nat)
    ensures var records := RecordsOf(entries, offset, index);
            && |records| == |entries|
            && (forall i :: 0 <= i < |records| ==>
                  && records[i].packetIndex == index + i
                  && records[i].headerOffset == offset + SizeOfFirst(entries, i)
                  && records[i].dataOffset == records[i].headerOffset + PACKET_HEADER_SIZE
                  && records[i].bytes == entries[i].bytes
                  && records[i].capturedLength == |entries[i].bytes|
                  && records[i].originalLength == entries[i].originalLength
                  && records[i].tsSec == entries[i].tsSec
                  && records[i].tsFraction == entries[i].tsFraction)
    decreases |entries|
  {
    if entries != [] {
      RecordsTile(entries[1..], offset + PACKET_HEADER_SIZE + |entries[0].bytes|, index + 1);
    }
  }

  /** The size of a file in terms of what it holds. */
  lemma {:induction false} FileSize(entries: seq<Entry>, endianness: Endianness)
    ensures |EncodeRecords(entries, endianness)| == SizeOfFirst(entries, |entries|)
    decreases |entries|
  {
    hide EncodeRecord;
    if entries != [] {
      FileSize(entries[1..], endianness);
    }
  }
}
