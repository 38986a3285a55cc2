/** The writer of classic PCAP files (src/writer/PcapWriter.cpp). The output stream is a byte string
    that the writer appends to. */
module PcapWriting {
  import opened Bytes
  import opened Policy
  import opened PcapFile

  /** Division that rounds toward zero, as `duration_cast` does. */
  function TruncateDiv(value: int, divisor: int): int
    requires divisor > 0
  {
    if value >= 0 then value / divisor else -((-value) / divisor)
  }

  /** The timestamp fields of a packet: seconds and microseconds, each cast to 32 bits. */
  function TimestampFields(timestamp: int): (u32, u32) {
    var micros := TruncateDiv(timestamp, 1000);
    var seconds := TruncateDiv(micros, 1_000_000);
    (seconds % 0x1_0000_0000, (micros - seconds * 1_000_000) % 0x1_0000_0000)
  }

  /** The stored form of a packet of which `inclLen` bytes are kept. */
  function EntryOf(packet: CapturedPacket, inclLen: u32): Entry
    requires inclLen <= |packet.data|
  {
    var (tsSec, tsUsec) := TimestampFields(packet.timestamp);
    RawEntry(tsSec, tsUsec, Max(packet.originalLen, inclLen), packet.data[..inclLen])
  }

  class PcapWriter {
    const snaplen: u32
    var output: seq<byte>
    var globalHeaderWritten: bool

    /** The output is empty or a file with the packets written so far. */
    ghost predicate Holds(entries: seq<Entry>)
      reads this
    {
      && (globalHeaderWritten <==> entries != [])
      && output == if entries == [] then [] else EncodeFile(Little, Microsecond, snaplen, entries)
    }

    lemma {:induction false} HeldOutput(entries: seq<Entry>)
      requires Holds(entries)
      ensures output == if entries == [] then [] else EncodeFile(Little, Microsecond, snaplen, entries)
    {
    }

    constructor (snaplen: u32)
      ensures this.snaplen == snaplen && Holds([])
    {
      this.snaplen := snaplen;
      output, globalHeaderWritten := [], false;
    }

    method WriteLe16(value: u16)
      modifies this`output
      ensures output == old(output) + EncodeU16(value, Little)
    {
      output := output + [value % 0x100, (value / 0x100) % 0x100];
    }

    method WriteLe32(value: u32)
      modifies this`output
      ensures output == old(output) + EncodeU32(value, Little)
    {
      SplitLe32(value);
      output := output
        + [value % 0x100, (value / 0x100) % 0x100, (value / 0x1_0000) % 0x100, (value / 0x100_0000) % 0x100];
    }

    method WriteGlobalHeader()
      modifies this
      ensures globalHeaderWritten
      ensures output == if old(globalHeaderWritten) then old(output)
                        else old(output) + EncodeGlobalHeader(Little, Microsecond, snaplen)
    {
      hide EncodeU16;
      hide EncodeU32;
      if globalHeaderWritten {
        return;
      }
      MagicNumber();
      WriteLe32(0xA1B2_C3D4);
      WriteLe16(2);
      WriteLe16(4);
      WriteLe32(0);
      WriteLe32(0);
      WriteLe32(snaplen);
      WriteLe32(ETHERNET_LINK_TYPE);
      globalHeaderWritten := true;
    }

    /** Appends a packet; refuses (in the source, by an exception) more bytes than there are. */
    method WritePacket(packet: CapturedPacket, inclLen: u32, ghost entries: seq<Entry>) returns (written: bool)
      requires Holds(entries)
      modifies this
      ensures written <==> inclLen <= packet.SafeCapturedLen()
      ensures !written ==> Holds(entries)
      ensures written ==> Holds(entries + [EntryOf(packet, inclLen)])
    {
      hide EncodeU16;
      hide EncodeU32;
      hide EncodeGlobalHeader;
      hide EncodeRecords;
      hide EncodeFile;
      hide TimestampFields;
      if inclLen > packet.SafeCapturedLen() {
        return false;
      }
      WriteGlobalHeader();
      ghost var start := output;
      EmptyFile(snaplen);
      assert [] + EncodeGlobalHeader(Little, Microsecond, snaplen) == EncodeGlobalHeader(Little, Microsecond, snaplen);
      assert start == EncodeFile(Little, Microsecond, snaplen, entries);
      var (tsSec, tsUsec) := TimestampFields(packet.timestamp);
      var origLen := Max(packet.originalLen, inclLen);
      WriteLe32(tsSec);
      WriteLe32(tsUsec);
      WriteLe32(inclLen);
      WriteLe32(origLen);
      output := output + packet.data[..inclLen];
      ghost var entry := EntryOf(packet, inclLen);
      FiveParts(start, EncodeU32(tsSec, Little), EncodeU32(tsUsec, Little), EncodeU32(inclLen, Little),
                EncodeU32(origLen, Little), packet.data[..inclLen]);
      assert output == start + EncodeRecord(entry, Little);
      EncodeFileSnoc(snaplen, entries, entry);
      written := true;
    }
  }

  lemma {:induction false} SplitLe32(value: u32)
    ensures EncodeU32(value, Little)
            == [value % 0x100, (value / 0x100) % 0x100, (value / 0x1_0000) % 0x100, (value / 0x100_0000) % 0x100]
  {
    var high, low := value / 0x1_0000, value % 0x1_0000;
    DigitsOf(value, high / 0x100, high % 0x100, low / 0x100, low % 0x100);
  }

  lemma {:induction false} DigitsOf(value: nat, b3: byte, b2: byte, b1: byte, b0: byte)
    requires value == b3 as int * 0x100_0000 + b2 as int * 0x1_0000 + b1 as int * 0x100 + b0
    ensures value % 0x100 == b0 && (value / 0x100) % 0x100 == b1
    ensures (value / 0x1_0000) % 0x100 == b2 && (value / 0x100_0000) % 0x100 == b3
  {
    assert value / 0x100 == b3 as int * 0x1_0000 + b2 as int * 0x100 + b1;
    assert value / 0x1_0000 == b3 as int * 0x100 + b2;
    assert value / 0x100_0000 == b3;
  }

  lemma {:induction false} MagicNumber()
    ensures EncodeU32(0xA1B2_C3D4, Little) == MagicBytes(Little, Microsecond)
  {
  }

  lemma {:induction false} EncodeRecordsSnoc(entries: seq<Entry>, entry: Entry, endianness: Endianness)
    ensures EncodeRecords(entries + [entry], endianness)
            == EncodeRecords(entries, endianness) + EncodeRecord(entry, endianness)
    decreases |entries|
  {
    hide EncodeRecord;
    if entries == [] {
      assert entries + [entry] == [entry] && [entry][1..] == [];
      assert EncodeRecords([entry], endianness) == EncodeRecord(entry, endianness) + EncodeRecords([], endianness);
    } else {
      assert (entries + [entry])[1..] == entries[1..] + [entry];
      EncodeRecordsSnoc(entries[1..], entry, endianness);
    }
  }

  lemma {:induction false} FiveParts(
    start: seq<byte>, a: seq<byte>, b: seq<byte>, c: seq<byte>, d: seq<byte>, e: seq<byte>)
    ensures start + a + b + c + d + e == start + (a + b + c + d + e)
  {
  }

  lemma {:induction false} EmptyFile(snaplen: u32)
    ensures EncodeFile(Little, Microsecond, snaplen, []) == EncodeGlobalHeader(Little, Microsecond, snaplen)
  {
    hide EncodeGlobalHeader;
    assert EncodeRecords([], Little) == [];
  }

  lemma {:induction false} EncodeFileSnoc(snaplen: u32, entries: seq<Entry>, entry: Entry)
    ensures EncodeFile(Little, Microsecond, snaplen, entries + [entry])
            == EncodeFile(Little, Microsecond, snaplen, entries) + EncodeRecord(entry, Little)
  {
    hide EncodeGlobalHeader;
    hide EncodeRecords;
    hide EncodeRecord;
    EncodeRecordsSnoc(entries, entry, Little);
  }

  /** The instant that timestamp fields stand for, in nanoseconds since the epoch. */
  function Instant(tsSec: u32, tsFraction: u32, precision: TimePrecision): int {
    tsSec * 1_000_000_000 + (if precision == Nanosecond then tsFraction as int else tsFraction * 1000)
  }

  /** What is read back of a timestamp is the instant rounded down to a whole microsecond, exactly when the
      instant is not before the epoch and its seconds fit in 32 bits. */
  lemma {:induction false} TimestampRoundTrip(timestamp: int)
    ensures var (tsSec, tsUsec) := TimestampFields(timestamp);
            var back := Instant(tsSec, tsUsec, Microsecond);
            0 <= timestamp < 0x1_0000_0000 * 1_000_000_000
            <==> back <= timestamp < back + 1000 && tsUsec < 1_000_000
  {
  }

  /** Before the epoch, both fields are those of the instant as far behind it, negated modulo 2^32: the source rounds
      towards the epoch. */
  lemma {:induction false} BeforeEpoch(timestamp: int)
    requires timestamp < 0
    ensures var micros := (-timestamp) / 1000;
            TimestampFields(timestamp)
            == ((-(micros / 1_000_000)) % 0x1_0000_0000, (-(micros % 1_000_000)) % 0x1_0000_0000)
  {
    var micros := (-timestamp) / 1000;
    assert TruncateDiv(timestamp, 1000) == -micros;
    assert TruncateDiv(-micros, 1_000_000) == -(micros / 1_000_000);
  }

  /** The stored form of packets of which so many bytes each are kept. */
  function Stored(packets: seq<CapturedPacket>, lengths: seq<u32>): (entries: seq<Entry>)
    requires |packets| == |lengths| && forall i :: 0 <= i < |packets| ==> lengths[i] <= |packets[i].data|
    ensures |entries| == |packets|
  {
    seq(|packets|, i requires 0 <= i < |packets| => EntryOf(packets[i], lengths[i]))
  }

  /** What the writer wrote reads back packet by packet, in order and with a clean end: the kept bytes,
      their number, the original length (never less than what is kept) and the timestamp, to the
      microsecond if its seconds fit in 32 bits. */
  lemma {:induction false} WriterRoundTrip(snaplen: u32, packets: seq<CapturedPacket>, lengths: seq<u32>)
    requires snaplen != 0
    requires |packets| == |lengths| && forall i :: 0 <= i < |packets| ==> lengths[i] <= |packets[i].data|
    ensures var file := EncodeFile(Little, Microsecond, snaplen, Stored(packets, lengths));
            && ParseGlobalHeader(file)
               == Header(GlobalHeader(Little, Microsecond, 2, 4, 0, 0, snaplen, 1))
            && |file| >= GLOBAL_HEADER_SIZE
            && var (records, ending) := ReadAll(file, GLOBAL_HEADER_SIZE, 0, Little);
               && ending == CleanEnd && |records| == |packets|
               && forall i :: 0 <= i < |packets| ==>
                    && records[i].bytes == packets[i].data[..lengths[i]]
                    && records[i].capturedLength == lengths[i]
                    && records[i].originalLength == Max(packets[i].originalLen, lengths[i])
                    && (0 <= packets[i].timestamp < 0x1_0000_0000 * 1_000_000_000 ==>
                          var back := Instant(records[i].tsSec, records[i].tsFraction, Microsecond);
                          back <= packets[i].timestamp < back + 1000)
  {
    hide ParseGlobalHeader;
    hide ReadAll;
    hide EncodeFile;
    hide RecordsOf;
    hide TimestampFields;
    hide Instant;
    var entries := Stored(packets, lengths);
    FileRoundTrip(Little, Microsecond, snaplen, entries);
    RecordsTile(entries, GLOBAL_HEADER_SIZE, 0);
    forall i | 0 <= i < |packets|
      ensures 0 <= packets[i].timestamp < 0x1_0000_0000 * 1_000_000_000 ==>
                var back := Instant(entries[i].tsSec, entries[i].tsFraction, Microsecond);
                back <= packets[i].timestamp < back + 1000
    {
      TimestampRoundTrip(packets[i].timestamp);
    }
  }

  /** Well-formed timestamp fields of an input record are written unchanged, nanoseconds cut to microseconds. */
  lemma {:induction false} FieldsSurvive(tsSec: u32, tsFraction: u32, precision: TimePrecision)
    requires tsFraction < if precision == Nanosecond then 1_000_000_000 else 1_000_000
    ensures TimestampFields(Instant(tsSec, tsFraction, precision))
            == (tsSec, if precision == Nanosecond then tsFraction / 1000 else tsFraction)
  {
    var usec: int := if precision == Nanosecond then tsFraction / 1000 else tsFraction;
    var micros: int := tsSec * 1_000_000 + usec;
    assert TruncateDiv(Instant(tsSec, tsFraction, precision), 1000) == micros;
    assert TruncateDiv(micros, 1_000_000) == tsSec;
  }
}
