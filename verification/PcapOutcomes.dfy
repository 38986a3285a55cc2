/** Every file and what reading it yields: which files open, and why the others are refused; how the records of a file
    end; and so, which inputs the offline feed takes without an error. */
module PcapOutcomes {
  import opened Bytes
  import opened Config
  import opened PcapFile
  import opened OfflineFeed
  import PolicyTraces

  // ---------------------------------------------------------------------------------------------
  // The global header

  /** The 24 bytes of a global header, whatever its fields are. */
  function HeaderBytes(h: GlobalHeader): (bytes: seq<byte>)
    ensures |bytes| == 24
  {
    MagicBytes(h.endianness, h.precision) + (EncodeU16(h.versionMajor, h.endianness)
    + (EncodeU16(h.versionMinor, h.endianness) + (EncodeU32(h.reserved1, h.endianness)
    + (EncodeU32(h.reserved2, h.endianness) + (EncodeU32(h.snaplen, h.endianness)
    + EncodeU32(h.linkType, h.endianness))))))
  }

  /** Version 2.4, some snaplen, and Ethernet. */
  predicate IsGood(h: GlobalHeader) {
    h.versionMajor == 2 && h.versionMinor == 4 && h.snaplen > 0 && h.linkType == 1
  }

  /** The first thing wrong with a header, or the header. */
  function HeaderOutcome(h: GlobalHeader): Opened {
    if h.versionMajor != 2 || h.versionMinor != 4 then Refused(UnsupportedVersion)
    else if h.snaplen == 0 then Refused(ZeroSnaplen)
    else if h.linkType != 1 then Refused(UnsupportedLinkType)
    else Header(h)
  }

  lemma {:induction false} Pieces(
    file: seq<byte>, a: seq<byte>, b: seq<byte>, c: seq<byte>, d: seq<byte>, e: seq<byte>, f: seq<byte>, g: seq<byte>)
    requires |a| == |d| == |e| == |f| == |g| == 4 && |b| == |c| == 2
    requires |file| >= 24 && file[..24] == a + (b + (c + (d + (e + (f + g)))))
    ensures file[..4] == a && file[4..6] == b && file[6..8] == c && file[8..12] == d && file[12..16] == e
    ensures file[16..20] == f && file[20..24] == g
  {
    var h := file[..24];
    assert h[..4] == a && h[4..6] == b && h[6..8] == c && h[8..12] == d && h[12..16] == e && h[16..20] == f;
    assert h[20..24] == g;
  }

  /** A header is read back field by field, and judged by its fields. */
  lemma {:induction false} HeaderDecides(file: seq<byte>, h: GlobalHeader)
    requires |file| >= 24 && file[..24] == HeaderBytes(h)
    ensures ParseGlobalHeader(file) == HeaderOutcome(h)
  {
    hide ReadU16;
    hide ReadU32;
    hide EncodeU16;
    hide EncodeU32;
    hide MagicBytes;
    hide DetectMagic;
    var e := h.endianness;
    MagicSize(e, h.precision);
    Pieces(file, MagicBytes(e, h.precision), EncodeU16(h.versionMajor, e), EncodeU16(h.versionMinor, e),
           EncodeU32(h.reserved1, e), EncodeU32(h.reserved2, e), EncodeU32(h.snaplen, e), EncodeU32(h.linkType, e));
    MagicIsNotPcapNg(file, e, h.precision);
    ReadBack(file, 4, EncodeU16(h.versionMajor, e), e);
    ReadBack(file, 6, EncodeU16(h.versionMinor, e), e);
    ReadBack(file, 8, EncodeU32(h.reserved1, e), e);
    ReadBack(file, 12, EncodeU32(h.reserved2, e), e);
    ReadBack(file, 16, EncodeU32(h.snaplen, e), e);
    ReadBack(file, 20, EncodeU32(h.linkType, e), e);
  }

  lemma {:induction false} MagicSize(endianness: Endianness, precision: TimePrecision)
    ensures |MagicBytes(endianness, precision)| == 4
  {
  }

  ghost predicate HasMagic(file: seq<byte>) {
    |file| >= 4 && exists endianness, precision :: file[..4] == MagicBytes(endianness, precision)
  }

  /** Files without one of the four magic numbers. */
  lemma {:induction false} WithoutMagic(file: seq<byte>)
    ensures |file| < 24 ==> ParseGlobalHeader(file) == Refused(TruncatedGlobalHeader)
    ensures |file| >= 24 && file[..4] == [0x0A, 0x0D, 0x0D, 0x0A] ==>
              ParseGlobalHeader(file) == Refused(PcapNgNotSupported)
    ensures |file| >= 24 && file[..4] != [0x0A, 0x0D, 0x0D, 0x0A] && !HasMagic(file) ==>
              ParseGlobalHeader(file) == Refused(UnknownMagic)
  {
    if |file| >= 24 {
      assert file[..4] == [file[0], file[1], file[2], file[3]];
      assert MagicBytes(Little, Microsecond) == [0xd4, 0xc3, 0xb2, 0xa1];
      assert MagicBytes(Big, Microsecond) == [0xa1, 0xb2, 0xc3, 0xd4];
      assert MagicBytes(Little, Nanosecond) == [0x4d, 0x3c, 0xb2, 0xa1];
      assert MagicBytes(Big, Nanosecond) == [0xa1, 0xb2, 0x3c, 0x4d];
    }
  }

  lemma {:induction false} TwoBytes(a: byte, b: byte, e: Endianness)
    ensures EncodeU16(ReadU16([a, b], 0, e), e) == [a, b]
  {
  }

  lemma {:induction false} Halves(high: u16, low: u16)
    ensures (high * 0x1_0000 + low) / 0x1_0000 == high && (high * 0x1_0000 + low) % 0x1_0000 == low
  {
  }

  lemma {:induction false} HalfBytes(high: byte, low: byte)
    ensures (high * 0x100 + low) / 0x100 == high && (high * 0x100 + low) % 0x100 == low
  {
  }

  lemma {:induction false} FourBytes(a: byte, b: byte, c: byte, d: byte, e: Endianness)
    ensures EncodeU32(ReadU32([a, b, c, d], 0, e), e) == [a, b, c, d]
  {
    HalfBytes(a, b);
    HalfBytes(b, a);
    HalfBytes(c, d);
    HalfBytes(d, c);
    if e == Little {
      Halves(0x100 * d + c, 0x100 * b + a);
    } else {
      Halves(0x100 * a + b, 0x100 * c + d);
    }
  }

  lemma {:induction false} WordWasWritten(file: seq<byte>, at: nat, e: Endianness)
    ensures at + 2 <= |file| ==> file[at..at + 2] == EncodeU16(ReadU16(file, at, e), e)
    ensures at + 4 <= |file| ==> file[at..at + 4] == EncodeU32(ReadU32(file, at, e), e)
  {
    hide ReadU16;
    hide ReadU32;
    hide EncodeU16;
    hide EncodeU32;
    if at + 2 <= |file| {
      ReadBack(file, at, file[at..at + 2], e);
      assert file[at..at + 2] == [file[at], file[at + 1]];
      TwoBytes(file[at], file[at + 1], e);
    }
    if at + 4 <= |file| {
      ReadBack(file, at, file[at..at + 4], e);
      assert file[at..at + 4] == [file[at], file[at + 1], file[at + 2], file[at + 3]];
      FourBytes(file[at], file[at + 1], file[at + 2], file[at + 3], e);
    }
  }

  lemma {:induction false} SplitSlice(file: seq<byte>, a: nat, b: nat)
    requires a <= b <= 24 <= |file|
    ensures file[a..24] == file[a..b] + file[b..24]
  {
  }

  /** The first 24 bytes of any other file are a header. */
  lemma {:induction false} HeaderWasWritten(file: seq<byte>) returns (h: GlobalHeader)
    requires |file| >= 24 && HasMagic(file)
    ensures file[..24] == HeaderBytes(h)
  {
    hide ReadU16;
    hide ReadU32;
    hide EncodeU16;
    hide EncodeU32;
    hide MagicBytes;
    var e, precision :| file[..4] == MagicBytes(e, precision);
    h := GlobalHeader(
      e, precision, ReadU16(file, 4, e), ReadU16(file, 6, e), ReadU32(file, 8, e), ReadU32(file, 12, e),
      ReadU32(file, 16, e), ReadU32(file, 20, e));
    WordWasWritten(file, 4, e);
    WordWasWritten(file, 6, e);
    WordWasWritten(file, 8, e);
    WordWasWritten(file, 12, e);
    WordWasWritten(file, 16, e);
    WordWasWritten(file, 20, e);
    SplitSlice(file, 0, 4);
    SplitSlice(file, 4, 6);
    SplitSlice(file, 6, 8);
    SplitSlice(file, 8, 12);
    SplitSlice(file, 12, 16);
    SplitSlice(file, 16, 20);
    assert file[0..4] == file[..4] && file[0..24] == file[..24];
  }

  /** A file opens exactly if it begins with a good header. */
  lemma {:induction false} OpensIffGood(file: seq<byte>)
    ensures ParseGlobalHeader(file).Header? <==> exists h :: IsGood(h) && HeaderBytes(h) <= file
    ensures ParseGlobalHeader(file).Header? ==>
              var h := ParseGlobalHeader(file).header; IsGood(h) && HeaderBytes(h) <= file
  {
    hide ParseGlobalHeader;
    hide HeaderBytes;
    hide HasMagic;
    if h :| IsGood(h) && HeaderBytes(h) <= file {
      HeaderDecides(file, h);
    }
    if |file| >= 24 && HasMagic(file) {
      var h := HeaderWasWritten(file);
      HeaderDecides(file, h);
    } else {
      WithoutMagic(file);
    }
  }

  // ---------------------------------------------------------------------------------------------
  // Records

  /** What can follow the last whole record: nothing; less than a record header; a header that cannot be right; or a
      header and less data than it announces. */
  datatype Leftover =
    | Nothing
    | PartOfHeader(bytes: seq<byte>)
    | WrongLengths(tsSec: u32, tsFraction: u32, captured: u32, original: u32, bytes: seq<byte>)
    | PartOfData(tsSec: u32, tsFraction: u32, captured: u32, original: u32, bytes: seq<byte>)
  {
    predicate Valid() {
      match this
      case Nothing => true
      case PartOfHeader(bytes) => 0 < |bytes| < 16
      case WrongLengths(_, _, captured, original, _) => captured > original
      case PartOfData(_, _, captured, original, bytes) => captured <= original && |bytes| < captured
    }

    function Bytes(e: Endianness): seq<byte> {
      match this
      case Nothing => []
      case PartOfHeader(bytes) => bytes
      case WrongLengths(tsSec, tsFraction, captured, original, bytes) =>
        FourWords(tsSec, tsFraction, captured, original, e) + bytes
      case PartOfData(tsSec, tsFraction, captured, original, bytes) =>
        FourWords(tsSec, tsFraction, captured, original, e) + bytes
    }

    /** How a file ends in which it stands at `offset`. */
    function Ending(offset: nat): Ending
      requires Valid()
    {
      match this
      case Nothing => CleanEnd
      case PartOfHeader(bytes) => IncompleteTail(HeaderTail(offset, |bytes|))
      case WrongLengths(_, _, _, _, _) => LengthError
      case PartOfData(_, _, captured, _, bytes) =>
        IncompleteTail(DataTail(offset + 16, captured, |bytes|, captured - |bytes|))
    }
  }

  function FourWords(a: u32, b: u32, c: u32, d: u32, e: Endianness): (bytes: seq<byte>)
    ensures |bytes| == 16
  {
    EncodeU32(a, e) + (EncodeU32(b, e) + (EncodeU32(c, e) + EncodeU32(d, e)))
  }

  lemma {:induction false} FourParts(
    file: seq<byte>, offset: nat, a: seq<byte>, b: seq<byte>, c: seq<byte>, d: seq<byte>)
    requires |a| == |b| == |c| == |d| == 4
    requires offset + 16 <= |file| && file[offset..offset + 16] == a + (b + (c + d))
    ensures file[offset..offset + 4] == a && file[offset + 4..offset + 8] == b
    ensures file[offset + 8..offset + 12] == c && file[offset + 12..offset + 16] == d
  {
    var h, t := file[offset..offset + 16], b + (c + d);
    assert h[0..4] == a && h[4..] == t;
    assert t[..4] == b && t[4..] == c + d && t[4..][..4] == c && t[4..][4..] == d;
    assert h[4..8] == t[..4] && h[8..12] == t[4..][..4] && h[12..16] == t[4..][4..];
  }

  lemma {:induction false} FourWordsReadBack(
    file: seq<byte>, offset: nat, a: u32, b: u32, c: u32, d: u32, e: Endianness)
    requires offset + 16 <= |file| && file[offset..offset + 16] == FourWords(a, b, c, d, e)
    ensures ReadU32(file, offset, e) == a && ReadU32(file, offset + 4, e) == b
    ensures ReadU32(file, offset + 8, e) == c && ReadU32(file, offset + 12, e) == d
  {
    hide ReadU32;
    hide EncodeU32;
    FourParts(file, offset, EncodeU32(a, e), EncodeU32(b, e), EncodeU32(c, e), EncodeU32(d, e));
    ReadBack(file, offset, EncodeU32(a, e), e);
    ReadBack(file, offset + 4, EncodeU32(b, e), e);
    ReadBack(file, offset + 8, EncodeU32(c, e), e);
    ReadBack(file, offset + 12, EncodeU32(d, e), e);
  }

  /** What is left over is not returned, and told exactly. */
  lemma {:induction false} LeftoverDecides(file: seq<byte>, offset: nat, index: nat, left: Leftover, e: Endianness)
    requires offset <= |file| && left.Valid() && file[offset..] == left.Bytes(e)
    ensures ReadAll(file, offset, index, e) == ([], left.Ending(offset))
  {
    hide ReadU32;
    hide EncodeU32;
    if left.WrongLengths? || left.PartOfData? {
      assert file[offset..offset + 16] == file[offset..][..16];
      FourWordsReadBack(file, offset, left.tsSec, left.tsFraction, left.captured, left.original, e);
    }
  }

  /** Whole records followed by what is left over are read back in order, and end as the leftover says. */
  lemma {:induction false} RecordsDecide(
    file: seq<byte>, offset: nat, index: nat, entries: seq<Entry>, left: Leftover, e: Endianness)
    requires offset <= |file| && left.Valid()
    requires file[offset..] == EncodeRecords(entries, e) + left.Bytes(e)
    ensures ReadAll(file, offset, index, e)
            == (RecordsOf(entries, offset, index), left.Ending(offset + |EncodeRecords(entries, e)|))
    decreases |entries|
  {
    hide EncodeRecord;
    hide EncodeRecords;
    hide RecordAt;
    hide RecordsOf;
    hide Leftover.Bytes;
    hide Leftover.Ending;
    hide Leftover.Valid;
    if entries == [] {
      EncodeNone(e);
      RecordsOfNone(offset, index);
      assert [] + left.Bytes(e) == left.Bytes(e);
      LeftoverDecides(file, offset, index, left, e);
    } else {
      var first, others := entries[0], entries[1..];
      var code, behind := EncodeRecord(first, e), EncodeRecords(others, e) + left.Bytes(e);
      EncodeCons(entries, e);
      assert file[offset..] == code + behind;
      FirstRecord(file, offset, index, first, code + behind, e);
      assert file[offset + |code|..] == file[offset..][|code|..] == behind;
      RecordsDecide(file, offset + |code|, index + 1, others, left, e);
      assert entries == [first] + others;
      RecordsOfCons(first, others, offset, index);
    }
  }

  lemma {:induction false} FourWordsWereWritten(file: seq<byte>, offset: nat, e: Endianness)
    requires offset + 16 <= |file|
    ensures file[offset..offset + 16]
            == FourWords(ReadU32(file, offset, e), ReadU32(file, offset + 4, e), ReadU32(file, offset + 8, e),
                         ReadU32(file, offset + 12, e), e)
  {
    hide ReadU32;
    hide EncodeU32;
    WordWasWritten(file, offset, e);
    WordWasWritten(file, offset + 4, e);
    WordWasWritten(file, offset + 8, e);
    WordWasWritten(file, offset + 12, e);
  }

  lemma {:induction false} RecordIsWords(entry: Entry, e: Endianness)
    ensures EncodeRecord(entry, e)
            == FourWords(entry.tsSec, entry.tsFraction, |entry.bytes|, entry.originalLength, e) + entry.bytes
  {
    hide EncodeU32;
  }

  /** Everything behind a global header is whole records and a leftover. */
  lemma {:induction false} RecordsWereWritten(file: seq<byte>, offset: nat, e: Endianness)
    returns (entries: seq<Entry>, left: Leftover)
    requires offset <= |file|
    ensures left.Valid() && file[offset..] == EncodeRecords(entries, e) + left.Bytes(e)
    decreases |file| - offset
  {
    hide ReadU32;
    hide FourWords;
    hide EncodeRecord;
    entries, left := [], Nothing;
    if |file| - offset < 16 {
      if offset < |file| {
        left := PartOfHeader(file[offset..]);
      }
      return;
    }
    var sec, fraction := ReadU32(file, offset, e), ReadU32(file, offset + 4, e);
    var captured, original := ReadU32(file, offset + 8, e), ReadU32(file, offset + 12, e);
    FourWordsWereWritten(file, offset, e);
    var at := offset + 16;
    assert file[offset..] == file[offset..at] + file[at..];
    if captured > original {
      left := WrongLengths(sec, fraction, captured, original, file[at..]);
    } else if captured > |file| - at {
      left := PartOfData(sec, fraction, captured, original, file[at..]);
    } else {
      var first: Entry := RawEntry(sec, fraction, original, file[at..at + captured]);
      var others;
      others, left := RecordsWereWritten(file, at + captured, e);
      entries := [first] + others;
      assert entries[1..] == others;
      RecordIsWords(first, e);
      assert file[at..] == file[at..at + captured] + file[at + captured..];
      OneMoreRecord(FourWords(sec, fraction, captured, original, e), first.bytes, EncodeRecords(others, e),
                    left.Bytes(e));
    }
  }

  lemma {:induction false} OneMoreRecord(header: seq<byte>, data: seq<byte>, others: seq<byte>, left: seq<byte>)
    ensures header + (data + (others + left)) == header + data + others + left
  {
  }

  // ---------------------------------------------------------------------------------------------
  // The offline feed

  /** The input is a good header and whole records. */
  ghost predicate IsWhole(input: seq<byte>, h: GlobalHeader, entries: seq<Entry>) {
    IsGood(h) && input == HeaderBytes(h) + EncodeRecords(entries, h.endianness)
  }

  lemma {:induction false} WholeSucceeds(input: seq<byte>, h: GlobalHeader, entries: seq<Entry>, config: PolicyConfig)
    requires IsWhole(input, h, entries)
    ensures Expected(input, config).ok
  {
    hide Expected;
    hide ParseGlobalHeader;
    hide ReadAll;
    hide HeaderBytes;
    hide EncodeRecords;
    hide IsGood;
    var e := h.endianness;
    HeaderDecides(input, h);
    GoodIsHeader(h);
    var code := EncodeRecords(entries, e);
    assert input[24..] == code && Nothing.Bytes(e) == [] && code + [] == code;
    RecordsDecide(input, 24, 0, entries, Nothing, e);
    EndsCleanly(input, config);
  }

  lemma {:induction false} SuccessIsWhole(input: seq<byte>, config: PolicyConfig)
    returns (h: GlobalHeader, entries: seq<Entry>)
    requires Expected(input, config).ok
    ensures IsWhole(input, h, entries)
  {
    hide Expected;
    hide ParseGlobalHeader;
    hide ReadAll;
    hide HeaderBytes;
    hide EncodeRecords;
    hide IsGood;
    hide Leftover.Ending;
    EndsCleanly(input, config);
    OpensIffGood(input);
    h := ParseGlobalHeader(input).header;
    var left;
    entries, left := RecordsWereWritten(input, 24, h.endianness);
    var code := EncodeRecords(entries, h.endianness);
    RecordsDecide(input, 24, 0, entries, left, h.endianness);
    OnlyNothingIsClean(left, 24 + |code|, h.endianness);
    assert input == input[..24] + input[24..];
    assert code + [] == code;
  }

  /** The offline feed succeeds exactly on a good header followed by whole records. */
  lemma {:induction false} SucceedsIffWhole(input: seq<byte>, config: PolicyConfig)
    ensures Expected(input, config).ok <==> exists h, entries :: IsWhole(input, h, entries)
  {
    hide Expected;
    hide IsWhole;
    if Expected(input, config).ok {
      var h, entries := SuccessIsWhole(input, config);
    }
    if h, entries :| IsWhole(input, h, entries) {
      WholeSucceeds(input, h, entries, config);
    }
  }

  lemma {:induction false} GoodIsHeader(h: GlobalHeader)
    requires IsGood(h)
    ensures HeaderOutcome(h) == Header(h)
  {
  }

  lemma {:induction false} OnlyNothingIsClean(left: Leftover, offset: nat, e: Endianness)
    requires left.Valid()
    ensures left.Ending(offset) == CleanEnd <==> left.Nothing?
    ensures left.Nothing? ==> left.Bytes(e) == []
  {
  }

  /** A run succeeds exactly if the file opens and ends cleanly; an input that does not open yields nothing. */
  lemma {:induction false} EndsCleanly(input: seq<byte>, config: PolicyConfig)
    ensures Expected(input, config).ok
            <==> ParseGlobalHeader(input).Header? && |input| >= 24
                 && ReadAll(input, 24, 0, ParseGlobalHeader(input).header.endianness).1 == CleanEnd
    ensures ParseGlobalHeader(input).Refused? ==> Expected(input, config) == FeedResult(false, NO_STATS, None)
  {
    hide ReadAll;
    hide ParseGlobalHeader;
    hide HeaderBytes;
    hide EncodeFile;
    hide EntriesOf;
    hide PacketsOf;
    hide Tally;
    hide PolicyTraces.Decisions;
    OpensIffGood(input);
  }
}
