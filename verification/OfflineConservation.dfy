/** What the offline feed conserves from its input file to its output file. */
module OfflineConservation {
  import opened Bytes
  import opened Config
  import opened Policy
  import opened PcapFile
  import opened OfflineFeed
  import PolicyTraces
  import PcapWriting

  /** A record that was read: as many bytes as announced, and no more than the original length. */
  predicate SaneRecord(record: Record) {
    |record.bytes| == record.capturedLength <= record.originalLength
  }

  lemma {:induction false} ReadRecordsAreSane(file: seq<byte>, offset: nat, index: nat, endianness: Endianness)
    requires offset <= |file|
    ensures forall record :: record in ReadAll(file, offset, index, endianness).0 ==> SaneRecord(record)
    decreases |file| - offset
  {
    hide ReadU32;
    var found := RecordAt(file, offset, index, endianness);
    if found.Next? {
      ReadRecordsAreSane(file, found.record.dataOffset + found.record.capturedLength, index + 1, endianness);
    }
  }

  lemma {:induction false} SizeIsSum(entries: seq<Entry>, packets: seq<CapturedPacket>, decisions: seq<Decision>)
    requires Fit(packets, decisions) && entries == EntriesOf(packets, decisions)
    ensures SizeOfFirst(entries, |entries|) == PACKET_HEADER_SIZE * |packets| + KeptBytes(decisions)
    decreases |packets|
  {
    hide PcapWriting.TimestampFields;
    if packets != [] {
      FitTail(packets, decisions);
      assert entries[1..] == EntriesOf(packets[1..], decisions[1..]);
      SizeIsSum(entries[1..], packets[1..], decisions[1..]);
    }
  }

  /** The timestamp fields of a record are in range for its precision. */
  predicate SaneTimestamp(record: Record, precision: TimePrecision) {
    record.tsFraction < if precision == Nanosecond then 1_000_000_000 else 1_000_000
  }

  /** The fields are those of the input's instant rounded down to its microsecond. */
  predicate SameInstant(tsSec: u32, tsUsec: u32, input: Record, precision: TimePrecision) {
    && tsUsec < 1_000_000
    && PcapWriting.Instant(tsSec, tsUsec, Microsecond)
       <= PcapWriting.Instant(input.tsSec, input.tsFraction, precision)
       < PcapWriting.Instant(tsSec, tsUsec, Microsecond) + 1000
  }

  /** The seconds of a record, with what its fraction carries over, fit in 32 bits. */
  predicate FitsSeconds(record: Record, precision: TimePrecision) {
    PcapWriting.Instant(record.tsSec, record.tsFraction, precision) < 0x1_0000_0000 * 1_000_000_000
  }

  /** An output record is a cut of an input record: a prefix of its bytes, with the original length preserved.
      The instant of its timestamp is preserved to the microsecond exactly if its seconds fit, and if the
      timestamp's fields are in range, so are the fields. */
  ghost predicate CutOf(out: Record, input: Record, precision: TimePrecision) {
    && out.bytes <= input.bytes
    && out.capturedLength == |out.bytes|
    && out.originalLength == input.originalLength
    && (SameInstant(out.tsSec, out.tsFraction, input, precision) <==> FitsSeconds(input, precision))
    && (SaneTimestamp(input, precision) ==>
          && out.tsSec == input.tsSec
          && out.tsFraction == (if precision == Nanosecond then input.tsFraction / 1000 else input.tsFraction))
  }

  lemma {:induction false} EntryIsCut(record: Record, kept: u32, precision: TimePrecision)
    requires SaneRecord(record) && kept <= |record.bytes|
    ensures var entry := PcapWriting.EntryOf(PacketOf(record, precision), kept);
            && entry.bytes == record.bytes[..kept]
            && entry.originalLength == record.originalLength
            && (SameInstant(entry.tsSec, entry.tsFraction, record, precision) <==> FitsSeconds(record, precision))
            && (SaneTimestamp(record, precision) ==>
                  && entry.tsSec == record.tsSec
                  && entry.tsFraction
                     == (if precision == Nanosecond then record.tsFraction / 1000 else record.tsFraction))
  {
    hide PcapWriting.TimestampFields;
    PcapWriting.TimestampRoundTrip(PcapWriting.Instant(record.tsSec, record.tsFraction, precision));
    if SaneTimestamp(record, precision) {
      PcapWriting.FieldsSurvive(record.tsSec, record.tsFraction, precision);
    }
  }

  /** Reading the written records back gives one cut per input record, in order. */
  lemma {:induction false} EntriesAreCuts(records: seq<Record>, precision: TimePrecision, decisions: seq<Decision>)
    requires forall record :: record in records ==> SaneRecord(record)
    requires Fit(PacketsOf(records, precision), decisions)
    ensures var out := RecordsOf(EntriesOf(PacketsOf(records, precision), decisions), GLOBAL_HEADER_SIZE, 0);
            && |out| == |records|
            && forall i :: 0 <= i < |records| ==>
                 CutOf(out[i], records[i], precision) && out[i].capturedLength == decisions[i].outputLen
  {
    hide PcapWriting.EntryOf;
    hide PacketOf;
    hide RecordsOf;
    hide EntriesOf;
    hide SaneTimestamp;
    hide FitsSeconds;
    hide SameInstant;
    var packets := PacketsOf(records, precision);
    var entries := EntriesOf(packets, decisions);
    RecordsTile(entries, GLOBAL_HEADER_SIZE, 0);
    forall i | 0 <= i < |records|
      ensures CutOf(RecordsOf(entries, GLOBAL_HEADER_SIZE, 0)[i], records[i], precision)
      ensures |entries[i].bytes| == decisions[i].outputLen
    {
      assert records[i] in records;
      SafeLength(records[i], precision);
      assert packets[i] == PacketOf(records[i], precision);
      EntryIsCut(records[i], decisions[i].outputLen, precision);
    }
  }

  lemma {:induction false} SafeLength(record: Record, precision: TimePrecision)
    requires SaneRecord(record)
    ensures PacketOf(record, precision).SafeCapturedLen() == |record.bytes|
  {
  }

  /** For every input with a readable global header, however it ends: the output holds one cut per
      complete input record, in order, and reads back with a clean end; its size is 24 bytes plus 16 per
      record plus the bytes output. An input without records gives an empty output. */
  lemma {:induction false} OutputConservesInput(input: seq<byte>, config: PolicyConfig)
    requires ParseGlobalHeader(input).Header?
    ensures var header := ParseGlobalHeader(input).header;
            var records := ReadAll(input, GLOBAL_HEADER_SIZE, 0, header.endianness).0;
            var result := Expected(input, config);
            && result.output.Some?
            && var out := result.output.value;
               && (records == [] ==> out == [])
               && (records != [] ==>
                     && |out| == GLOBAL_HEADER_SIZE + PACKET_HEADER_SIZE * |records| + result.stats.bytesOutput
                     && ParseGlobalHeader(out)
                        == Header(GlobalHeader(Little, Microsecond, 2, 4, 0, 0, header.snaplen, 1))
                     && var (outRecords, ending) := ReadAll(out, GLOBAL_HEADER_SIZE, 0, Little);
                        && ending == CleanEnd
                        && |outRecords| == |records|
                        && forall i :: 0 <= i < |records| ==> CutOf(outRecords[i], records[i], header.precision))
  {
    hide ParseGlobalHeader;
    hide ReadAll;
    hide EntriesOf;
    hide Tally;
    hide EncodeGlobalHeader;
    hide EncodeRecords;
    hide CutOf;
    hide PolicyTraces.Decisions;
    hide SaneRecord;
    HeaderIsUsable(input);
    var header := ParseGlobalHeader(input).header;
    var records := ReadAll(input, GLOBAL_HEADER_SIZE, 0, header.endianness).0;
    ReadRecordsAreSane(input, GLOBAL_HEADER_SIZE, 0, header.endianness);
    var packets := PacketsOf(records, header.precision);
    var decisions := PolicyTraces.Decisions(INITIAL_STATE, packets, config);
    DecisionsFit(INITIAL_STATE, packets, config);
    EntriesAreCuts(records, header.precision, decisions);
    var entries := EntriesOf(packets, decisions);
    FileRoundTrip(Little, Microsecond, header.snaplen, entries);
    FileSize(entries, Little);
    SizeIsSum(entries, packets, decisions);
    TallyCounts(NO_STATS, packets, decisions);
  }

  lemma {:induction false} HeaderIsUsable(input: seq<byte>)
    requires ParseGlobalHeader(input).Header?
    ensures |input| >= GLOBAL_HEADER_SIZE && ParseGlobalHeader(input).header.snaplen != 0
  {
  }

  /** A successful run accounts for every packet and every byte: all packets are written, and the bytes
      read are the bytes output plus the bytes saved. */
  lemma {:induction false} StatsAddUp(input: seq<byte>, config: PolicyConfig)
    requires Expected(input, config).ok
    ensures var stats := Expected(input, config).stats;
            var header := ParseGlobalHeader(input).header;
            var records := ReadAll(input, GLOBAL_HEADER_SIZE, 0, header.endianness).0;
            && stats.packetsTotal == stats.packetsWritten == |records|
            && stats.bytesInput == stats.bytesOutput + stats.bytesSaved
            && stats.bytesInput == CapturedBytes(PacketsOf(records, header.precision))
  {
    hide ParseGlobalHeader;
    hide ReadAll;
    hide EntriesOf;
    hide Tally;
    hide EncodeFile;
    hide PolicyTraces.Decisions;
    HeaderIsUsable(input);
    var header := ParseGlobalHeader(input).header;
    var records := ReadAll(input, GLOBAL_HEADER_SIZE, 0, header.endianness).0;
    var packets := PacketsOf(records, header.precision);
    TallyCounts(NO_STATS, packets, PolicyTraces.Decisions(INITIAL_STATE, packets, config));
  }

  /** A run that fails behind the header has counted what it wrote, but no saved bytes. */
  lemma {:induction false} StatsOfFailure(input: seq<byte>, config: PolicyConfig)
    requires !Expected(input, config).ok && ParseGlobalHeader(input).Header?
    ensures |input| >= GLOBAL_HEADER_SIZE
    ensures var stats := Expected(input, config).stats;
            var header := ParseGlobalHeader(input).header;
            var records := ReadAll(input, GLOBAL_HEADER_SIZE, 0, header.endianness).0;
            && stats.packetsTotal == stats.packetsWritten == |records|
            && stats.bytesInput == CapturedBytes(PacketsOf(records, header.precision))
            && stats.bytesSaved == 0
  {
    hide ParseGlobalHeader;
    hide ReadAll;
    hide EntriesOf;
    hide Tally;
    hide EncodeFile;
    hide PolicyTraces.Decisions;
    HeaderIsUsable(input);
    var header := ParseGlobalHeader(input).header;
    var records := ReadAll(input, GLOBAL_HEADER_SIZE, 0, header.endianness).0;
    var packets := PacketsOf(records, header.precision);
    TallyCounts(NO_STATS, packets, PolicyTraces.Decisions(INITIAL_STATE, packets, config));
  }
}
