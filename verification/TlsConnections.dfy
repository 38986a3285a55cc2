/** Single connections followed segment by segment: how a stream may open, where following it fails, and what
    a SYN that carries data does. */
module TlsConnections {
  import opened Bytes
  import opened Config
  import opened Tls
  import opened TlsRecords
  import opened TlsTraces
  import opened TlsStreams

  // ---------------------------------------------------------------------------------------------
  // The first segment of a stream

  /** A stream of two empty Handshake records: ten bytes. */
  function TwoHandshakes(): seq<Record> {
    [RawRecord(HANDSHAKE, 0x03, []), RawRecord(HANDSHAKE, 0x03, [])]
  }

  lemma {:induction false} TwoHandshakesAt(n: nat)
    requires n <= 10
    ensures Stream(TwoHandshakes()) == [0x16, 0x03, 0x03, 0, 0, 0x16, 0x03, 0x03, 0, 0]
    ensures PlaceAt(TwoHandshakes(), n) == if n in {0, 5, 10} then Boundary else InHeader
  {
    var records := TwoHandshakes();
    assert Encode(records[0]) == Encode(records[1]) == [0x16, 0x03, 0x03, 0, 0];
    var last := records[1..];
    assert last == [records[1]] && last[1..] == [];
    assert Stream(last[1..]) == [];
    assert Stream(last) == Encode(records[1]);
    if n >= 5 {
      assert PlaceAt(records, n) == PlaceAt(last, n - 5);
    }
    if n >= 10 {
      assert PlaceAt(last, n - 5) == PlaceAt(last[1..], n - 10);
    }
  }

  /** Where its stream begins. */
  const OPENING := Origin(100, false)

  /** A connection as it is captured from its start: SYN, SYN and ACK, then the first `n` bytes of the stream. */
  function Opening(key: DirectionKey, n: nat): seq<Segment>
    requires n <= |Stream(TwoHandshakes())|
  {
    [Segment(key, 99, 0x02, []), Segment(key.Reverse(), 0, 0x12, []),
     Segment(key, 100, 0x10, Stream(TwoHandshakes())[..n])]
  }

  lemma {:induction false} OpeningIsInOrder(key: DirectionKey, n: nat)
    requires 0 < n <= |Stream(TwoHandshakes())|
    ensures var since := SinceReset(Opening(key, n), key);
            && since == Opening(key, n)[1..]
            && InOrder(since, key, TwoHandshakes(), OPENING)
            && |Delivered(since, key)| == n
            && (CleanRun(since, key, TwoHandshakes()) <==> Clean(TwoHandshakes(), 0, n))
  {
    hide Stream;
    hide Clean;
    var events := Opening(key, n);
    assert key.Reverse().Reverse() == key;
    assert events[..2][1] == events[1] && Resets(events[1], key) && !Resets(events[2], key);
    assert LastReset(events, key) == LastReset(events[..2], key) == 1;
    var since := events[1..];
    assert since[..1] == [events[1]] && since[..1][..0] == [] && since[..2] == since && since[..0] == [];
    assert Delivered(since[..1], key) == [];
    assert Delivered(since, key) == events[2].payload;
    assert CleanEvent(since, key, TwoHandshakes(), 1) <==> Clean(TwoHandshakes(), 0, n);
  }

  /** Every way in which such a connection can deliver its first segment: less than a header is NoRecord
      and leaves no entry; one or both records whole are followed; and a segment that splits the second
      header is Malformed, although the entry is the one-shot state. */
  lemma {:induction false} OpeningSegment(key: DirectionKey, n: nat, options: TlsOptions)
    requires 0 < n <= |Stream(TwoHandshakes())|
    ensures var events := Opening(key, n);
            var disposition := VerdictAt(map[], events, 2, options).disposition;
            var table := Run(map[], events, options);
            if n < 5 then disposition == NoRecord && key !in table
            else
              && key in table && table[key] == StateAt(TwoHandshakes(), n, OPENING)
              && (n in {5, 10} ==> disposition != NoRecord && disposition != Malformed)
              && (n !in {5, 10} ==> disposition == Malformed)
  {
    hide DirectionStep;
    hide Stream;
    hide PlaceAt;
    hide AppDataSeenAt;
    hide StateAt;
    hide AfterFlags;
    var events, records := Opening(key, n), TwoHandshakes();
    TwoHandshakesAt(0);
    TwoHandshakesAt(n);
    EmptyHandshake(key, n, options);
    var last := events[2];
    assert events[..3] == events;
    EntryAfterFlags(map[], last, key);
    EntryAfterStep(map[], last, options);
    assert last.payload == Stream(records)[0..0 + n];
    SegmentAgreement(FRESH, records, 0, last.payload, OPENING, options);
  }

  lemma {:induction false} EmptyHandshake(key: DirectionKey, n: nat, options: TlsOptions)
    requires n <= |Stream(TwoHandshakes())|
    ensures Run(map[], Opening(key, n)[..2], options) == map[]
  {
    hide Stream;
    var events := Opening(key, n);
    assert events[..2][..1] == [events[0]] && [events[0]][..0] == [];
    assert Run(map[], [], options) == map[];
    assert Run(map[], [events[0]], options) == map[];
  }

  // ---------------------------------------------------------------------------------------------
  // Running past the end of application data

  /** A Handshake without body, two bytes of application data and an Alert without body: 5 + 7 + 5 bytes. */
  function MixedRecords(): seq<Record> {
    [RawRecord(HANDSHAKE, 0x03, []), RawRecord(APPLICATION_DATA, 0x03, [1, 2]), RawRecord(ALERT, 0x03, [])]
  }

  lemma {:induction false} MixedRecordsAt(n: nat)
    requires 11 <= n <= 17
    ensures |Stream(MixedRecords())| == 17
    ensures PlaceAt(MixedRecords(), n)
            == if n == 11 then InBody(APPLICATION_DATA, 1) else if n in {12, 17} then Boundary else InHeader
    ensures AppDataSeenAt(MixedRecords(), n)
  {
    hide Encode;
    var records := MixedRecords();
    var second := records[1..];
    var third := second[1..];
    assert second == [records[1], records[2]] && third == [records[2]] && third[1..] == [];
    assert Stream(third[1..]) == [];
    assert |Stream(third)| == 5 && |Stream(second)| == 12;
    assert PlaceAt(records, n) == PlaceAt(second, n - 5);
    assert AppDataSeenAt(records, n) == AppDataSeenAt(second, n - 5);
    if n >= 12 {
      assert PlaceAt(second, n - 5) == PlaceAt(third, n - 12);
    }
    if n == 17 {
      assert PlaceAt(third, 5) == PlaceAt(third[1..], 0);
    }
  }

  /** A connection that has delivered all but the last byte of its application data in one segment goes on with
      a second: with that byte alone it is followed, and the byte is cut unless the settings keep one; with any
      more it is kept whole, and the direction is reset, knowing only that it is confirmed and has carried
      application data. The first segment is cut behind what the settings keep of its six bytes of the record. */
  lemma {:induction false} OverrunningSegment(key: DirectionKey, m: nat, options: TlsOptions)
    requires |Stream(MixedRecords())| == 17 && 1 <= m <= 6
    ensures var stream := Stream(MixedRecords());
            var first, second := Segment(key, 100, 0x10, stream[..11]), Segment(key, 111, 0x10, stream[11..11 + m]);
            var (before, firstVerdict) := TableStep(map[], first, options);
            var (table, verdict) := TableStep(before, second, options);
            && firstVerdict
               == (if options.appDataKeepRecordBytes < 6
                   then Verdict(AppDataPrefix, 5 + options.appDataKeepRecordBytes)
                   else Verdict(NoApplicationData, 11))
            && key in table
            && if m == 1 then
                 && table[key] == StateAt(MixedRecords(), 12, OPENING)
                 && verdict
                    == (if options.appDataContinuationKeepBytes == 0 then Verdict(AppDataPrefix, 0)
                        else Verdict(NoApplicationData, 1))
               else
                 && table[key] == FRESH.(confirmedTls := true, hasSeenApplicationData := true)
                 && verdict == Verdict(NoApplicationData, m)
  {
    hide DirectionStep;
    hide TableStep;
    hide Stream;
    hide PlaceAt;
    hide AppDataSeenAt;
    hide StateAt;
    hide AfterFlags;
    hide StreamVerdict;
    var records, stream := MixedRecords(), Stream(MixedRecords());
    var first, second := Segment(key, 100, 0x10, stream[..11]), Segment(key, 111, 0x10, stream[11..11 + m]);
    MixedRecordsAt(11);
    MixedRecordsAt(11 + m);
    StartPlace(records);
    EntryAfterFlags(map[], first, key);
    EntryAfterStep(map[], first, options);
    assert first.payload == stream[0..0 + 11];
    SegmentAgreement(FRESH, records, 0, first.payload, OPENING, options);
    var table := TableStep(map[], first, options).0;
    EntryAfterFlags(table, second, key);
    EntryAfterStep(table, second, options);
    SegmentAgreement(table[key], records, 11, second.payload, OPENING, options);
    MixedVerdicts(options);
  }

  lemma {:induction false} MixedVerdicts(options: TlsOptions)
    ensures StreamVerdict(MixedRecords(), 0, 11, options)
            == if options.appDataKeepRecordBytes < 6 then Verdict(AppDataPrefix, 5 + options.appDataKeepRecordBytes)
               else Verdict(NoApplicationData, 11)
    ensures StreamVerdict(MixedRecords(), 11, 12, options)
            == if options.appDataContinuationKeepBytes == 0 then Verdict(AppDataPrefix, 0)
               else Verdict(NoApplicationData, 1)
  {
    hide Encode;
    hide PlaceAt;
    var records := MixedRecords();
    MixedRecordsAt(11);
    assert records[1..][0] == records[1];
    assert RecordAt(records, 5) == RecordAt(records[1..], 0) == Some(records[1]);
    forall p | 5 < p < 12 ensures RecordAt(records, p).None? {
      assert RecordAt(records, p) == RecordAt(records[1..], p - 5);
    }
  }

  lemma {:induction false} StartPlace(records: seq<Record>)
    ensures PlaceAt(records, 0) == Boundary
  {
  }

  // ---------------------------------------------------------------------------------------------
  // A SYN that carries data

  /** The sequence number at which TCP goes on after a segment: a SYN takes one of its own. */
  function TcpNext(segment: Segment): u32 {
    ToU32(segment.seqNumber + |segment.payload| + if BitSet(segment.flags, 0x02) then 1 else 0)
  }

  /** A direction that a segment leaves synchronized stays so with the segment that TCP sends next exactly if
      the first one was no SYN, because the tracker does not count the SYN's own sequence number. */
  lemma {:induction false} StaysInStepIffNoSyn(table: Table, segment: Segment, options: TlsOptions)
    requires segment.payload != [] && segment.key in TableStep(table, segment, options).0
    requires TableStep(table, segment, options).0[segment.key].synchronized
    ensures var entry := TableStep(table, segment, options).0[segment.key];
            Resynchronize(entry, TcpNext(segment)).synchronized <==> !BitSet(segment.flags, 0x02)
  {
    hide DirectionStep;
    hide TableStep;
    hide AdvanceTcpSeq;
    hide BitSet;
    EntryAfterStep(table, segment, options);
    ExpectsNext(DirectionOf(AfterFlags(table, segment), segment.key), segment.seqNumber, segment.payload, options);
    OneFurther(segment.seqNumber, |segment.payload|);
  }

  /** A SYN with data is taken in exactly if its data begins with a Handshake record header, and then it leaves
      the direction synchronized. So a SYN with data is never followed by TCP's next segment in step. */
  lemma {:induction false} SynDataIsTakenIffHandshake(table: Table, syn: Segment, options: TlsOptions)
    requires BitSet(syn.flags, 0x02) && syn.payload != []
    ensures var next, header := TableStep(table, syn, options).0, ReadTlsRecordHeader(syn.payload, 0);
            && (syn.key in next <==> header.Some? && header.value.contentType == HANDSHAKE)
            && (syn.key in next
                ==> next[syn.key].synchronized && !Resynchronize(next[syn.key], TcpNext(syn)).synchronized)
  {
    hide TableStep;
    hide AfterFlags;
    hide ReadTlsRecordHeader;
    hide HasType;
    EntryAfterFlags(table, syn, syn.key);
    EntryAfterStep(table, syn, options);
    AcceptsFirst(FRESH, syn.payload, 0);
    if syn.key in TableStep(table, syn, options).0 {
      StaysInStepIffNoSyn(table, syn, options);
    }
  }

  lemma {:induction false} ExpectsNext(state: DirectionState, seqNumber: u32, payload: seq<byte>, options: TlsOptions)
    requires payload != []
    ensures var next := DirectionStep(state, seqNumber, payload, options).next;
            next.Some? && next.value.synchronized ==> next.value.expectedTcpSeq == AdvanceTcpSeq(seqNumber, |payload|)
  {
    hide RecordsFrom;
    hide AdvanceTcpSeq;
  }

  lemma {:induction false} OneFurther(seqNumber: u32, size: nat)
    ensures AdvanceTcpSeq(seqNumber, size) == ToU32(seqNumber + size)
    ensures ToU32(seqNumber + size + 1) != ToU32(seqNumber + size)
  {
  }

  /** A segment that begins a Handshake record of two bytes, but holds only one of them. */
  function BeginsHandshake(key: DirectionKey, flags: byte): Segment {
    Segment(key, 99, flags, [0x16, 0x03, 0x03, 0, 2, 1])
  }

  /** The segment in which TCP sends the other byte. */
  function EndsHandshake(key: DirectionKey, flags: byte): Segment {
    Segment(key, TcpNext(BeginsHandshake(key, flags)), 0x10, [2])
  }

  /** Both segments, whatever the flags of the first: the end of the record is followed exactly if the first was
      no SYN; after a SYN it is answered NoRecord. */
  lemma {:induction false} HandshakeInSyn(key: DirectionKey, flags: byte, options: TlsOptions)
    ensures var table := TableStep(map[], BeginsHandshake(key, flags), options).0;
            TableStep(table, EndsHandshake(key, flags), options).1
            == Verdict(if BitSet(flags, 0x02) then NoRecord else NoApplicationData, 1)
  {
    hide TableStep;
    hide AfterFlags;
    hide DirectionStep;
    hide BitSet;
    var first, second := BeginsHandshake(key, flags), EndsHandshake(key, flags);
    var table := TableStep(map[], first, options).0;
    EntryAfterFlags(map[], first, key);
    EntryAfterStep(map[], first, options);
    HalfHandshake(first.payload, options);
    AckResetsNothing();
    EntryAfterFlags(table, second, key);
    EntryAfterStep(table, second, options);
    OtherHalf(second.seqNumber, options);
  }

  lemma {:induction false} AckResetsNothing()
    ensures !BitSet(0x10, 0x02) && !BitSet(0x10, 0x04)
  {
  }

  lemma {:induction false} HalfHandshake(payload: seq<byte>, options: TlsOptions)
    requires payload == [0x16, 0x03, 0x03, 0, 2, 1]
    ensures DirectionStep(FRESH, 99, payload, options).next == Some(StateFor(InBody(HANDSHAKE, 1), false, 105))
  {
    var header := ReadTlsRecordHeader(payload, 0);
    assert header == Some(Header(0, HANDSHAKE, 2));
    assert RecordsFrom(payload, 0) == Records([header.value], false) by {
      assert RecordsFrom(payload, header.value.End()) == Records([], false);
    }
    HasTypeCons(header.value, [], HANDSHAKE);
    HasTypeCons(header.value, [], APPLICATION_DATA);
    assert !HasType([], APPLICATION_DATA);
  }

  lemma {:induction false} OtherHalf(seqNumber: u32, options: TlsOptions)
    ensures DirectionStep(StateFor(InBody(HANDSHAKE, 1), false, 105), seqNumber, [2], options).verdict
            == Verdict(if seqNumber == 105 then NoApplicationData else NoRecord, 1)
  {
    assert ReadTlsRecordHeader([2], 0) == None;
  }

  // ---------------------------------------------------------------------------------------------
  // Resets

  /** SYN and RST are the bits of value 2 and 4; nothing else forgets a flow, and they forget both directions. */
  lemma {:induction false} ResetsExactly(table: Table, segment: Segment, key: DirectionKey, options: TlsOptions)
    requires segment.payload == []
    ensures var next := TableStep(table, segment, options).0;
            && (key in next
                <==> key in table && !(segment.InFlow(key) && (segment.flags % 4 >= 2 || segment.flags % 8 >= 4)))
            && (key in next ==> next[key] == table[key])
  {
    assert key.Reverse().Reverse() == key;
    assert segment.key.Reverse().Reverse() == segment.key;
  }
}
