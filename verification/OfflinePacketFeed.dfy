/** The offline feed (src/offline/OfflinePacketFeed.cpp): reader, policy and writer in one loop, with
    the capture statistics; and what it conserves from input to output. */
module OfflineFeed {
  import opened Bytes
  import opened Config
  import opened Policy
  import opened PcapFile
  import PolicyTraces
  import PcapReading
  import PcapWriting

  datatype CaptureStats = CaptureStats(
    packetsTotal: nat,
    packetsWritten: nat,
    bytesInput: nat,
    bytesOutput: nat,
    bytesSaved: nat,
    tlsAppdataConstricted: nat,
    tlsFallback: nat,
    quicLongHeader: nat,
    quicShortMatched: nat,
    quicShortConstricted: nat,
    quicFallback: nat)

  const NO_STATS := CaptureStats(0, 0, 0, 0, 0, 0, 0, 0, 0, 0, 0)

  /** The result of a run: whether it succeeded, its statistics, and the output file if one was created. */
  datatype FeedResult = FeedResult(ok: bool, stats: CaptureStats, output: Option<seq<byte>>)

  function AccumulateDecisionStats(stats: CaptureStats, reason: DecisionReason): CaptureStats {
    match reason
    case TlsApplicationDataConstricted => stats.(tlsAppdataConstricted := stats.tlsAppdataConstricted + 1)
    case TlsMalformedFallback => stats.(tlsFallback := stats.tlsFallback + 1)
    case TlsNoRecordFallback => stats.(tlsFallback := stats.tlsFallback + 1)
    case QuicLongHeader => stats.(quicLongHeader := stats.quicLongHeader + 1)
    case QuicShortHeaderMatched => stats.(quicShortMatched := stats.quicShortMatched + 1)
    case QuicShortHeaderConstricted => stats.(quicShortConstricted := stats.quicShortConstricted + 1)
    case QuicShortHeaderUnknownCidFallback => stats.(quicFallback := stats.quicFallback + 1)
    case QuicShortHeaderDcidMismatchFallback => stats.(quicFallback := stats.quicFallback + 1)
    case QuicMalformedFallback => stats.(quicFallback := stats.quicFallback + 1)
    case _ => stats
  }

  /** A stored record as the policy sees it. */
  function PacketOf(record: Record, precision: TimePrecision): CapturedPacket {
    CapturedPacket(record.bytes, record.capturedLength, record.originalLength,
                   PcapWriting.Instant(record.tsSec, record.tsFraction, precision))
  }

  function PacketsOf(records: seq<Record>, precision: TimePrecision): (packets: seq<CapturedPacket>)
    ensures |packets| == |records|
    ensures forall i :: 0 <= i < |records| ==> packets[i] == PacketOf(records[i], precision)
  {
    if records == [] then [] else [PacketOf(records[0], precision)] + PacketsOf(records[1..], precision)
  }

  /** Every decision keeps no more than is there. */
  ghost predicate Fit(packets: seq<CapturedPacket>, decisions: seq<Decision>) {
    && |packets| == |decisions|
    && forall i :: 0 <= i < |packets| ==> decisions[i].outputLen <= packets[i].SafeCapturedLen()
  }

  /** What is written for a trace of packets. */
  function EntriesOf(packets: seq<CapturedPacket>, decisions: seq<Decision>): (entries: seq<Entry>)
    requires Fit(packets, decisions)
    ensures |entries| == |packets|
    ensures forall i :: 0 <= i < |packets| ==> entries[i] == PcapWriting.EntryOf(packets[i], decisions[i].outputLen)
  {
    if packets == [] then []
    else
      FitTail(packets, decisions);
      [PcapWriting.EntryOf(packets[0], decisions[0].outputLen)] + EntriesOf(packets[1..], decisions[1..])
  }

  /** The statistics after a trace, saved bytes not yet counted. */
  function Tally(stats: CaptureStats, packets: seq<CapturedPacket>, decisions: seq<Decision>): CaptureStats
    requires |packets| == |decisions|
    decreases |packets|
  {
    if packets == [] then stats
    else
      var counted := stats.(packetsTotal := stats.packetsTotal + 1,
                            packetsWritten := stats.packetsWritten + 1,
                            bytesInput := stats.bytesInput + packets[0].capturedLen,
                            bytesOutput := stats.bytesOutput + decisions[0].outputLen);
      Tally(AccumulateDecisionStats(counted, decisions[0].reason), packets[1..], decisions[1..])
  }

  function CapturedBytes(packets: seq<CapturedPacket>): nat {
    if packets == [] then 0 else packets[0].capturedLen + CapturedBytes(packets[1..])
  }

  function KeptBytes(decisions: seq<Decision>): nat {
    if decisions == [] then 0 else decisions[0].outputLen + KeptBytes(decisions[1..])
  }

  /** How many decisions have one of some reasons. */
  function CountReasons(decisions: seq<Decision>, reasons: set<DecisionReason>): nat {
    if decisions == [] then 0
    else (if decisions[0].reason in reasons then 1 else 0) + CountReasons(decisions[1..], reasons)
  }

  const TLS_FALLBACK_REASONS := {TlsMalformedFallback, TlsNoRecordFallback}
  const QUIC_FALLBACK_REASONS :=
    {QuicShortHeaderUnknownCidFallback, QuicShortHeaderDcidMismatchFallback, QuicMalformedFallback}

  lemma {:induction false} OneReason(stats: CaptureStats, reason: DecisionReason)
    ensures var after := AccumulateDecisionStats(stats, reason);
            && after.tlsAppdataConstricted
               == stats.tlsAppdataConstricted + (if reason == TlsApplicationDataConstricted then 1 else 0)
            && after.tlsFallback == stats.tlsFallback + (if reason in TLS_FALLBACK_REASONS then 1 else 0)
            && after.quicLongHeader == stats.quicLongHeader + (if reason == QuicLongHeader then 1 else 0)
            && after.quicShortMatched == stats.quicShortMatched + (if reason == QuicShortHeaderMatched then 1 else 0)
            && after.quicShortConstricted
               == stats.quicShortConstricted + (if reason == QuicShortHeaderConstricted then 1 else 0)
            && after.quicFallback == stats.quicFallback + (if reason in QUIC_FALLBACK_REASONS then 1 else 0)
  {
  }

  lemma {:induction false} FirstReason(decisions: seq<Decision>, reasons: set<DecisionReason>)
    ensures CountReasons(decisions, reasons)
            == if decisions == [] then 0
               else (if decisions[0].reason in reasons then 1 else 0) + CountReasons(decisions[1..], reasons)
  {
  }

  /** The policy counters are the numbers of decisions with the reasons that they are documented to count. */
  lemma {:induction false} ReasonCounters(stats: CaptureStats, packets: seq<CapturedPacket>, decisions: seq<Decision>)
    requires |packets| == |decisions|
    ensures var after := Tally(stats, packets, decisions);
            && after.tlsAppdataConstricted
               == stats.tlsAppdataConstricted + CountReasons(decisions, {TlsApplicationDataConstricted})
            && after.tlsFallback == stats.tlsFallback + CountReasons(decisions, TLS_FALLBACK_REASONS)
            && after.quicLongHeader == stats.quicLongHeader + CountReasons(decisions, {QuicLongHeader})
            && after.quicShortMatched == stats.quicShortMatched + CountReasons(decisions, {QuicShortHeaderMatched})
            && after.quicShortConstricted
               == stats.quicShortConstricted + CountReasons(decisions, {QuicShortHeaderConstricted})
            && after.quicFallback == stats.quicFallback + CountReasons(decisions, QUIC_FALLBACK_REASONS)
    decreases |packets|
  {
    hide AccumulateDecisionStats;
    hide CountReasons;
    FirstReason(decisions, {TlsApplicationDataConstricted});
    FirstReason(decisions, TLS_FALLBACK_REASONS);
    FirstReason(decisions, {QuicLongHeader});
    FirstReason(decisions, {QuicShortHeaderMatched});
    FirstReason(decisions, {QuicShortHeaderConstricted});
    FirstReason(decisions, QUIC_FALLBACK_REASONS);
    if packets != [] {
      var counted := stats.(packetsTotal := stats.packetsTotal + 1,
                            packetsWritten := stats.packetsWritten + 1,
                            bytesInput := stats.bytesInput + packets[0].capturedLen,
                            bytesOutput := stats.bytesOutput + decisions[0].outputLen);
      OneReason(counted, decisions[0].reason);
      ReasonCounters(AccumulateDecisionStats(counted, decisions[0].reason), packets[1..], decisions[1..]);
    }
  }

  /** The totals count packets and bytes. */
  lemma {:induction false} TallyCounts(stats: CaptureStats, packets: seq<CapturedPacket>, decisions: seq<Decision>)
    requires |packets| == |decisions|
    ensures var after := Tally(stats, packets, decisions);
            && after.packetsTotal == stats.packetsTotal + |packets|
            && after.packetsWritten == stats.packetsWritten + |packets|
            && after.bytesInput == stats.bytesInput + CapturedBytes(packets)
            && after.bytesOutput == stats.bytesOutput + KeptBytes(decisions)
            && after.bytesSaved == stats.bytesSaved
    decreases |packets|
  {
    if packets != [] {
      var counted := stats.(packetsTotal := stats.packetsTotal + 1,
                            packetsWritten := stats.packetsWritten + 1,
                            bytesInput := stats.bytesInput + packets[0].capturedLen,
                            bytesOutput := stats.bytesOutput + decisions[0].outputLen);
      TallyCounts(AccumulateDecisionStats(counted, decisions[0].reason), packets[1..], decisions[1..]);
    }
  }

  lemma {:induction false} KeptWithinCaptured(packets: seq<CapturedPacket>, decisions: seq<Decision>)
    requires Fit(packets, decisions)
    ensures KeptBytes(decisions) <= CapturedBytes(packets)
    decreases |packets|
  {
    if packets != [] {
      FitTail(packets, decisions);
      KeptWithinCaptured(packets[1..], decisions[1..]);
    }
  }

  lemma {:induction false} FitTail(packets: seq<CapturedPacket>, decisions: seq<Decision>)
    requires Fit(packets, decisions) && packets != []
    ensures Fit(packets[1..], decisions[1..])
  {
    assert forall i :: 0 <= i < |packets| - 1 ==> decisions[1..][i] == decisions[i + 1];
    assert forall i :: 0 <= i < |packets| - 1 ==> packets[1..][i] == packets[i + 1];
  }

  /** No more bytes are written than read, so the saved bytes never underflow. */
  lemma {:induction false} NothingGained(packets: seq<CapturedPacket>, decisions: seq<Decision>)
    requires Fit(packets, decisions)
    ensures Tally(NO_STATS, packets, decisions).bytesOutput <= Tally(NO_STATS, packets, decisions).bytesInput
  {
    TallyCounts(NO_STATS, packets, decisions);
    KeptWithinCaptured(packets, decisions);
  }

  lemma {:induction false} DecisionsFit(state: PolicyState, packets: seq<CapturedPacket>, config: PolicyConfig)
    ensures Fit(packets, PolicyTraces.Decisions(state, packets, config))
    decreases |packets|
  {
    hide PolicyStep;
    if packets != [] {
      var rest := packets[1..];
      PolicyTraces.CutSavesEnough(state, packets[0], config);
      DecisionsFit(PolicyStep(state, packets[0], config).0, rest, config);
      var decisions := PolicyTraces.Decisions(state, packets, config);
      assert forall i :: 1 <= i < |packets| ==> decisions[i] == decisions[1..][i - 1] && packets[i] == rest[i - 1];
    }
  }

  /** What a run must produce, read off the input: the packets, the decisions of a fresh policy on them,
      and how the input ends. */
  function Expected(input: seq<byte>, config: PolicyConfig): FeedResult {
    match ParseGlobalHeader(input)
    case Refused(_) => FeedResult(false, NO_STATS, None)
    case Header(header) =>
      var (records, ending) := ReadAll(input, GLOBAL_HEADER_SIZE, 0, header.endianness);
      var packets := PacketsOf(records, header.precision);
      var decisions := PolicyTraces.Decisions(INITIAL_STATE, packets, config);
      DecisionsFit(INITIAL_STATE, packets, config);
      var stats := Tally(NO_STATS, packets, decisions);
      var output :=
        if packets == [] then [] else EncodeFile(Little, Microsecond, header.snaplen, EntriesOf(packets, decisions));
      if ending != CleanEnd then FeedResult(false, stats, Some(output))
      else
        NothingGained(packets, decisions);
        FeedResult(true, stats.(bytesSaved := stats.bytesInput - stats.bytesOutput), Some(output))
  }

  /** The loop state: what has been written and counted, and what is still to come, amount to the whole. */
  ghost predicate OnTrack(
    written: seq<Entry>, stats: CaptureStats, state: PolicyState, rest: seq<CapturedPacket>,
    allEntries: seq<Entry>, allStats: CaptureStats, config: PolicyConfig)
  {
    var decisions := PolicyTraces.Decisions(state, rest, config);
    && Fit(rest, decisions)
    && written + EntriesOf(rest, decisions) == allEntries
    && Tally(stats, rest, decisions) == allStats
  }

  lemma {:induction false} OnTrackStep(
    written: seq<Entry>, stats: CaptureStats, state: PolicyState, rest: seq<CapturedPacket>,
    allEntries: seq<Entry>, allStats: CaptureStats, config: PolicyConfig)
    requires rest != [] && OnTrack(written, stats, state, rest, allEntries, allStats, config)
    ensures var (next, decision) := PolicyStep(state, rest[0], config);
            && decision.outputLen <= rest[0].SafeCapturedLen()
            && var counted := stats.(packetsTotal := stats.packetsTotal + 1,
                                     packetsWritten := stats.packetsWritten + 1,
                                     bytesInput := stats.bytesInput + rest[0].capturedLen,
                                     bytesOutput := stats.bytesOutput + decision.outputLen);
               OnTrack(written + [PcapWriting.EntryOf(rest[0], decision.outputLen)],
                       AccumulateDecisionStats(counted, decision.reason), next, rest[1..], allEntries, allStats, config)
  {
    hide PolicyStep;
    hide PcapWriting.EntryOf;
    hide AccumulateDecisionStats;
    var (next, decision) := PolicyStep(state, rest[0], config);
    var decisions := PolicyTraces.Decisions(state, rest, config);
    assert decisions[1..] == PolicyTraces.Decisions(next, rest[1..], config);
    DecisionsFit(next, rest[1..], config);
    var head := PcapWriting.EntryOf(rest[0], decision.outputLen);
    assert EntriesOf(rest, decisions) == [head] + EntriesOf(rest[1..], decisions[1..]);
    assert written + EntriesOf(rest, decisions) == (written + [head]) + EntriesOf(rest[1..], decisions[1..]);
  }

  lemma {:induction false} HeadPacket(record: Record, rest: seq<Record>, precision: TimePrecision)
    ensures var packets := PacketsOf([record] + rest, precision);
            packets != [] && packets[0] == PacketOf(record, precision) && packets[1..] == PacketsOf(rest, precision)
    ensures PacketOf(record, precision).capturedLen == record.capturedLength
  {
    hide PacketOf;
    PacketOfLength(record, precision);
    assert ([record] + rest)[1..] == rest;
  }

  lemma {:induction false} NoPackets(precision: TimePrecision)
    ensures PacketsOf([], precision) == []
  {
  }

  lemma {:induction false} PacketOfLength(record: Record, precision: TimePrecision)
    ensures PacketOf(record, precision).capturedLen == record.capturedLength
  {
  }

  class OfflinePacketFeed {
    /** The decision on one packet, and its record; the writer never refuses what the policy decides. */
    static method FeedPacket(
      policy: LiveCapturePolicy, writer: PcapWriting.PcapWriter, packet: CapturedPacket, ghost written: seq<Entry>)
      returns (decision: Decision)
      requires policy.Valid() && writer.Holds(written)
      modifies policy.tlsConstrictor, policy.quicConstrictor, writer
      ensures policy.Valid() && (policy.State(), decision) == PolicyStep(old(policy.State()), packet, policy.config)
      ensures decision.outputLen <= |packet.data|
      ensures writer.Holds(written + [PcapWriting.EntryOf(packet, decision.outputLen)])
    {
      hide PolicyStep;
      hide Baseline;
      hide PcapWriting.EntryOf;
      hide PcapWriting.PcapWriter.Holds;
      PolicyTraces.CutSavesEnough(policy.State(), packet, policy.config);
      decision := policy.Evaluate(packet);
      var complete := writer.WritePacket(packet, decision.outputLen, written);
      assert complete;
    }

    /** Feeds a file through the policy into an output file. */
    static method Run(input: seq<byte>, config: PolicyConfig) returns (result: FeedResult)
      ensures result == Expected(input, config)
    {
      hide ReadAll;
      hide ParseGlobalHeader;
      hide PolicyStep;
      hide OnTrack;
      hide EncodeFile;
      hide PcapWriting.EntryOf;
      hide AccumulateDecisionStats;
      hide Tally;
      hide EntriesOf;
      hide PolicyTraces.Decisions;
      hide Baseline;
      hide PacketOf;
      hide PacketsOf;
      hide KeptBytes;
      hide CapturedBytes;
      hide Fit;
      hide PcapReading.PcapReader.Ahead;
      hide PcapWriting.PcapWriter.Holds;
      hide LiveCapturePolicy.State;
      hide LiveCapturePolicy.Valid;
      hide CapturedPacket.SafeCapturedLen;
      result := FeedResult(false, NO_STATS, None);
      var reader := new PcapReading.PcapReader();
      var readable := reader.Open(input);
      if !readable {
        return;
      }
      var header := reader.globalHeader.value;
      var writer := new PcapWriting.PcapWriter(header.snaplen);
      var policy := new LiveCapturePolicy(config);
      var stats := NO_STATS;

      ghost var (records, ending) := reader.Ahead();
      ghost var packets := PacketsOf(records, header.precision);
      ghost var decisions := PolicyTraces.Decisions(INITIAL_STATE, packets, config);
      DecisionsFit(INITIAL_STATE, packets, config);
      ghost var allEntries, allStats := EntriesOf(packets, decisions), Tally(NO_STATS, packets, decisions);
      ghost var written: seq<Entry> := [];
      StartsOnTrack(packets, config);
      NoPackets(header.precision);

      var record := reader.ReadNext();
      assert records == if record.Some? then [record.value] + reader.Ahead().0 else [];
      while record.Some?
        invariant reader.Valid() && reader.streamOpen && reader.globalHeader == Some(header)
        invariant record.Some? ==> !reader.hasError && reader.Ahead().1 == ending
        invariant record.None? ==> (reader.hasError <==> ending != CleanEnd)
        invariant policy.Valid() && policy.config == config && writer.Holds(written) && writer.snaplen == header.snaplen
        invariant fresh(reader) && fresh(writer) && fresh(policy.tlsConstrictor) && fresh(policy.quicConstrictor)
        invariant OnTrack(written, stats, policy.State(),
                          if record.Some? then PacketsOf([record.value] + reader.Ahead().0, header.precision) else [],
                          allEntries, allStats, config)
        decreases if record.Some? then 1 + |reader.Ahead().0| else 0
      {
        var packet := PacketOf(record.value, header.precision);
        HeadPacket(record.value, reader.Ahead().0, header.precision);
        ghost var rest := PacketsOf([record.value] + reader.Ahead().0, header.precision);
        OnTrackStep(written, stats, policy.State(), rest, allEntries, allStats, config);

        var decision := FeedPacket(policy, writer, packet, written);
        written := written + [PcapWriting.EntryOf(packet, decision.outputLen)];

        stats := stats.(packetsTotal := stats.packetsTotal + 1);
        stats := stats.(packetsWritten := stats.packetsWritten + 1);
        stats := stats.(bytesInput := stats.bytesInput + record.value.capturedLength);
        stats := stats.(bytesOutput := stats.bytesOutput + decision.outputLen);
        stats := AccumulateDecisionStats(stats, decision.reason);

        ghost var ahead := reader.Ahead().0;
        record := reader.ReadNext();
        assert record.Some? ==> ahead == [record.value] + reader.Ahead().0;
      }
      writer.HeldOutput(written);
      EndsOnTrack(written, stats, policy.State(), allEntries, allStats, config);
      if reader.hasError {
        result := FeedResult(false, stats, Some(writer.output));
        return;
      }
      NothingGained(packets, decisions);
      result := FeedResult(true, stats.(bytesSaved := stats.bytesInput - stats.bytesOutput), Some(writer.output));
    }
  }

  lemma {:induction false} StartsOnTrack(packets: seq<CapturedPacket>, config: PolicyConfig)
    ensures var decisions := PolicyTraces.Decisions(INITIAL_STATE, packets, config);
            && Fit(packets, decisions)
            && OnTrack([], NO_STATS, INITIAL_STATE, packets, EntriesOf(packets, decisions),
                       Tally(NO_STATS, packets, decisions), config)
  {
    hide PolicyStep;
    DecisionsFit(INITIAL_STATE, packets, config);
    var decisions := PolicyTraces.Decisions(INITIAL_STATE, packets, config);
    assert [] + EntriesOf(packets, decisions) == EntriesOf(packets, decisions);
  }

  lemma {:induction false} EndsOnTrack(
    written: seq<Entry>, stats: CaptureStats, state: PolicyState, allEntries: seq<Entry>, allStats: CaptureStats,
    config: PolicyConfig)
    requires OnTrack(written, stats, state, [], allEntries, allStats, config)
    ensures written == allEntries && stats == allStats
  {
    hide PolicyStep;
    assert written + [] == written;
  }
}
