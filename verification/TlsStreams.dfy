/** Agreement of the segment-by-segment tracker with the byte stream it never sees as a whole.

    A stream is a list of records, serialized as section 5.1 of RFC 8446 lays them out. `PlaceAt` says
    where a byte position lies in the stream, and `StateAt` what a one-shot reader of the stream up to
    there would know. The tracker only sees segments; `StreamAgreement` says for which segmentations
    its state is `StateAt` after every segment. */
module TlsStreams {
  import opened Bytes
  import opened Config
  import opened Tls
  import opened TlsRecords
  import opened TlsTraces

  /** Where a stream begins: the TCP sequence number of its first byte, and whether the direction had carried
      application data before. */
  datatype Origin = Origin(seqNumber: u32, appDataSeen: bool)

  /** What a reader of the first `n` > 0 bytes of the stream knows about the direction. */
  function StateAt(records: seq<Record>, n: nat, origin: Origin): DirectionState {
    StateFor(PlaceAt(records, n), origin.appDataSeen || AppDataSeenAt(records, n), ToU32(origin.seqNumber + n))
  }

  function StateFor(place: Place, appDataSeen: bool, seqNumber: u32): DirectionState {
    DirectionState(
      true,
      appDataSeen,
      true,
      seqNumber,
      place.InBody?,
      if place.InBody? then place.contentType else 0,
      if place.InBody? then ToU32(place.remaining) else 0,
      place.InBody? && place.contentType == APPLICATION_DATA)
  }

  /** Bytes `from` to `to` can be delivered in one segment without losing track: the segment does not
      end inside a record header, and does not run past the end of an application data record that
      an earlier segment started. */
  predicate Clean(records: seq<Record>, from: nat, to: nat) {
    PlaceAt(records, to) != InHeader && !Overruns(records, from, to)
  }

  predicate Overruns(records: seq<Record>, from: nat, to: nat) {
    && PlaceAt(records, from).InBody?
    && PlaceAt(records, from).contentType == APPLICATION_DATA
    && PlaceAt(records, from).remaining < to - from
  }

  /** The cut that a segment with bytes `from` to `to` of the stream asks for: behind the kept bytes of the last
      application data record that starts in it; or, in a segment that does not go beyond the application data
      record that it started in, but ends it, behind the kept bytes of the segment. */
  function StreamCut(records: seq<Record>, from: nat, to: nat, options: TlsOptions): Option<nat>
    requires from <= to
  {
    match LastStart(records, from, to)
    case Some(p) =>
      var size := |Encode(RecordAt(records, p).value)|;
      Some(p - from + Min(options.appDataKeepRecordBytes, Min(size, to - p)))
    case None =>
      if PlaceAt(records, from) == InBody(23, to - from)
      then Some(Min(options.appDataContinuationKeepBytes, to - from)) else None
  }

  /** The verdict of a reader of the whole stream: the cut, if it shortens the segment. */
  function StreamVerdict(records: seq<Record>, from: nat, to: nat, options: TlsOptions): (verdict: Verdict)
    requires from <= to
    ensures verdict.disposition == AppDataPrefix || verdict.disposition == NoApplicationData
  {
    var cut := StreamCut(records, from, to, options);
    if cut.Some? && cut.value < to - from then Verdict(AppDataPrefix, cut.value)
    else Verdict(NoApplicationData, to - from)
  }

  /** The same for what follows the first `start` bytes of a segment, which belong to an earlier record. */
  function VerdictBehind(rest: seq<Record>, start: nat, size: nat, options: TlsOptions): (verdict: Verdict)
    ensures verdict.disposition == AppDataPrefix || verdict.disposition == NoApplicationData
  {
    match LastStart(rest, 0, size)
    case Some(p) =>
      var kept := start + p + Min(options.appDataKeepRecordBytes, Min(|Encode(RecordAt(rest, p).value)|, size - p));
      if kept < start + size then Verdict(AppDataPrefix, kept) else Verdict(NoApplicationData, start + size)
    case None => Verdict(NoApplicationData, start + size)
  }

  /** A segment that goes beyond the record it starts in is judged by what starts behind that record. */
  lemma {:induction false} VerdictGoesOn(records: seq<Record>, n: nat, more: nat, options: TlsOptions)
    requires n <= |Stream(records)| && PlaceAt(records, n) != InHeader
    requires LeftAt(records, n) < more
    ensures StreamVerdict(records, n, n + more, options)
            == VerdictBehind(RestAt(records, n), LeftAt(records, n), more - LeftAt(records, n), options)
  {
    hide Encode;
    hide RecordAt;
    hide RestAt;
    LastStartGoesOn(records, n, more);
    var left, later := LeftAt(records, n), LastStart(RestAt(records, n), 0, more - LeftAt(records, n));
    if later.Some? {
      RecordsGoOn(records, n, left + later.value);
    }
  }

  /** A segment that does not. */
  lemma {:induction false} VerdictInside(records: seq<Record>, n: nat, more: nat, options: TlsOptions)
    requires n <= |Stream(records)| && PlaceAt(records, n) != InHeader
    requires 0 < more <= LeftAt(records, n)
    ensures StreamVerdict(records, n, n + more, options) == VerdictWithin(PlaceAt(records, n), more, options)
  {
    hide Encode;
    hide RecordAt;
    hide RestAt;
    LastStartGoesOn(records, n, more);
  }

  function VerdictWithin(place: Place, size: nat, options: TlsOptions): Verdict {
    if place == InBody(23, size) && options.appDataContinuationKeepBytes < size
    then Verdict(AppDataPrefix, options.appDataContinuationKeepBytes)
    else Verdict(NoApplicationData, size)
  }

  // ---------------------------------------------------------------------------------------------
  // One segment

  lemma {:induction false} AdvanceIsExact(firstSeq: u32, from: nat, to: nat)
    requires from <= to
    ensures AdvanceTcpSeq(ToU32(firstSeq + from), to - from) == ToU32(firstSeq + to)
  {
  }

  /** An entry that a direction can have before the first data segment of a stream: nothing is known but
      whether the flow is confirmed and whether the direction has carried application data. */
  predicate Initial(state: DirectionState, appDataSeen: bool) {
    state == FRESH.(confirmedTls := state.confirmedTls, hasSeenApplicationData := appDataSeen)
  }

  /** The first record is one that the direction accepts: any, once confirmed, and a Handshake before. */
  predicate Opens(state: DirectionState, records: seq<Record>) {
    records != [] && (state.confirmedTls || records[0].contentType == HANDSHAKE)
  }

  /** The tracker's entry is what a reader of the first `n` bytes would know. */
  predicate AgreesAt(state: DirectionState, records: seq<Record>, n: nat, origin: Origin) {
    if n == 0 then Initial(state, origin.appDataSeen) && Opens(state, records)
    else state == StateAt(records, n, origin)
  }

  /** A segment leaves the given entry and is answered with the given verdict. */
  predicate Leaves(outcome: Outcome, state: DirectionState, verdict: Verdict) {
    outcome.next == Some(state) && outcome.verdict == verdict
  }

  /** A segment leaves the given entry but is Malformed, and kept whole. */
  predicate Falters(outcome: Outcome, state: DirectionState, payloadSize: nat) {
    outcome.next == Some(state) && outcome.verdict == Verdict(Malformed, payloadSize)
  }

  /** A segment, or the part of it after a finished record, that starts where a record starts. If it ends
      inside a record header, the entry is still the one-shot state, but the verdict is Malformed; except
      that a direction that has not been synchronized sees no record at all in less than a header. */
  lemma {:induction false} FromRecordStart(
    state: DirectionState, seqNumber: u32, payload: seq<byte>, start: nat, rest: seq<Record>, options: TlsOptions)
    requires start < |payload| && |payload| - start <= |Stream(rest)|
    requires payload[start..] == Stream(rest)[..|payload| - start]
    requires state == state.ClearActiveRecord()
    requires state.synchronized ==> state.confirmedTls
    requires !state.synchronized ==> Initial(state, state.hasSeenApplicationData) && Opens(state, rest)
    ensures var size := |payload| - start;
            Leaves(RecordsStep(state, seqNumber, payload, start, options),
                   StateFor(PlaceAt(rest, size), state.hasSeenApplicationData || AppDataSeenAt(rest, size),
                            AdvanceTcpSeq(seqNumber, |payload|)),
                   VerdictBehind(rest, start, size, options))
            <==> PlaceAt(rest, size) != InHeader
    ensures var size := |payload| - start;
            if !state.synchronized && size < RECORD_HEADER_SIZE
            then RecordsStep(state, seqNumber, payload, start, options)
                 == Outcome(if state.confirmedTls then Some(state) else None, false, Verdict(NoRecord, |payload|))
            else PlaceAt(rest, size) == InHeader ==>
                   Falters(RecordsStep(state, seqNumber, payload, start, options),
                           StateFor(InHeader, state.hasSeenApplicationData || AppDataSeenAt(rest, size),
                                    AdvanceTcpSeq(seqNumber, |payload|)),
                           |payload|)
  {
    hide RecordsFrom;
    hide Stream;
    hide AppDataSeenAt;
    hide VerdictBehind;
    hide CandidateCut;
    HeadersFollowStream(rest, payload, start);
    VerdictFollowsStream(rest, payload, start, options);
    PlaceBounds(rest, |payload| - start);
    var found := RecordsFrom(payload, start);
    if found.headers != [] && found.headers[0].contentType == HANDSHAKE {
      assert HasType(found.headers, HANDSHAKE);
    }
  }

  lemma {:induction false} VerdictFollowsStream(
    rest: seq<Record>, payload: seq<byte>, start: nat, options: TlsOptions)
    requires start < |payload| && |payload| - start <= |Stream(rest)|
    requires payload[start..] == Stream(rest)[..|payload| - start]
    ensures PlaceAt(rest, |payload| - start) != InHeader ==>
              Decide(payload, CandidateCut(|payload|, RecordsFrom(payload, start).headers, options))
              == VerdictBehind(rest, start, |payload| - start, options)
  {
    hide RecordsFrom;
    hide Stream;
    hide PlaceAt;
    hide LastAppData;
    hide LastStart;
    if PlaceAt(rest, |payload| - start) != InHeader {
      LastFollowsStream(rest, payload, start);
    }
  }

  /** A segment in sequence that stays inside the active record or ends it. */
  lemma {:induction false} InsideActiveRecord(
    place: Place, seen: bool, seqNumber: u32, payload: seq<byte>, options: TlsOptions)
    requires place.InBody? && 0 < |payload| <= place.remaining <= 0xFFFF
    ensures var left := place.remaining - |payload|;
            Leaves(DirectionStep(StateFor(place, seen, seqNumber), seqNumber, payload, options),
                   StateFor(if left > 0 then place.(remaining := left) else Boundary, seen,
                            AdvanceTcpSeq(seqNumber, |payload|)),
                   VerdictWithin(place, |payload|, options))
  {
    hide RecordsStep;
    hide AdvanceTcpSeq;
  }

  /** A segment in sequence that runs past the end of the active record, if there is one. */
  lemma {:induction false} PastActiveRecord(
    place: Place, seen: bool, seqNumber: u32, payload: seq<byte>, options: TlsOptions)
    requires place != InHeader
    requires payload != [] && (place.InBody? ==> place.remaining < |payload| && place.remaining <= 0xFFFF)
    ensures var outcome := DirectionStep(StateFor(place, seen, seqNumber), seqNumber, payload, options);
            if place.InBody? && place.contentType == APPLICATION_DATA
            then outcome == Outcome(Some(FRESH.(confirmedTls := true, hasSeenApplicationData := seen)), false,
                                    Verdict(NoApplicationData, |payload|))
            else outcome == RecordsStep(StateFor(Boundary, seen, seqNumber), seqNumber, payload,
                                        if place.InBody? then place.remaining else 0, options)
  {
    hide RecordsStep;
    hide AdvanceTcpSeq;
  }

  lemma {:induction false} SliceOfSlice(stream: seq<byte>, n: nat, part: seq<byte>, skip: nat)
    requires n + |part| <= |stream| && part == stream[n..n + |part|] && skip <= |part|
    ensures part[skip..] == stream[n + skip..][..|part| - skip]
  {
  }

  lemma {:induction false} NoActiveRecord(
    state: DirectionState, seqNumber: u32, payload: seq<byte>, options: TlsOptions)
    requires payload != [] && Initial(state, state.hasSeenApplicationData)
    ensures DirectionStep(state, seqNumber, payload, options) == RecordsStep(state, seqNumber, payload, 0, options)
  {
  }

  lemma {:induction false} FirstSegment(
    state: DirectionState, records: seq<Record>, payload: seq<byte>, origin: Origin, options: TlsOptions)
    requires payload != [] && |payload| <= |Stream(records)| && payload == Stream(records)[..|payload|]
    requires Initial(state, origin.appDataSeen) && Opens(state, records)
    ensures Leaves(DirectionStep(state, ToU32(origin.seqNumber), payload, options),
                   StateAt(records, |payload|, origin), StreamVerdict(records, 0, |payload|, options))
            <==> PlaceAt(records, |payload|) != InHeader
    ensures if |payload| < RECORD_HEADER_SIZE
            then DirectionStep(state, ToU32(origin.seqNumber), payload, options)
                 == Outcome(if state.confirmedTls then Some(state) else None, false, Verdict(NoRecord, |payload|))
            else PlaceAt(records, |payload|) == InHeader ==>
                   Falters(DirectionStep(state, ToU32(origin.seqNumber), payload, options),
                           StateAt(records, |payload|, origin), |payload|)
  {
    hide DirectionStep;
    hide RecordsStep;
    hide PlaceAt;
    hide AppDataSeenAt;
    hide Stream;
    hide VerdictBehind;
    hide StreamVerdict;
    AdvanceIsExact(origin.seqNumber, 0, |payload|);
    AtStart(records);
    VerdictGoesOn(records, 0, |payload|, options);
    assert payload[0..] == payload;
    NoActiveRecord(state, ToU32(origin.seqNumber), payload, options);
    FromRecordStart(state, ToU32(origin.seqNumber), payload, 0, records, options);
  }

  /** A segment in sequence that runs past the end of a record other than application data, or starts at a boundary. */
  lemma {:induction false} FromPlace(
    place: Place, seen: bool, seqNumber: u32, payload: seq<byte>, rest: seq<Record>, options: TlsOptions)
    requires place == Boundary
             || (place.InBody? && place.contentType != APPLICATION_DATA && place.remaining < |payload|
                 && place.remaining <= 0xFFFF)
    requires payload != []
    requires var left := if place.InBody? then place.remaining else 0;
             && |payload| - left <= |Stream(rest)|
             && payload[left..] == Stream(rest)[..|payload| - left]
    ensures var size := |payload| - (if place.InBody? then place.remaining else 0);
            Leaves(DirectionStep(StateFor(place, seen, seqNumber), seqNumber, payload, options),
                   StateFor(PlaceAt(rest, size), seen || AppDataSeenAt(rest, size),
                            AdvanceTcpSeq(seqNumber, |payload|)),
                   VerdictBehind(rest, |payload| - size, size, options))
            <==> PlaceAt(rest, size) != InHeader
    ensures var size := |payload| - (if place.InBody? then place.remaining else 0);
            PlaceAt(rest, size) == InHeader ==>
              Falters(DirectionStep(StateFor(place, seen, seqNumber), seqNumber, payload, options),
                      StateFor(InHeader, seen || AppDataSeenAt(rest, size), AdvanceTcpSeq(seqNumber, |payload|)),
                      |payload|)
  {
    hide DirectionStep;
    hide RecordsStep;
    hide PlaceAt;
    hide AppDataSeenAt;
    hide Leaves;
    hide VerdictBehind;
    var left := if place.InBody? then place.remaining else 0;
    PastActiveRecord(place, seen, seqNumber, payload, options);
    FromRecordStart(StateFor(Boundary, seen, seqNumber), seqNumber, payload, left, rest, options);
  }

  lemma {:induction false} SegmentIntoRest(
    records: seq<Record>, n: nat, payload: seq<byte>, origin: Origin, options: TlsOptions)
    requires payload != [] && n + |payload| <= |Stream(records)|
    requires payload == Stream(records)[n..n + |payload|]
    requires var place := PlaceAt(records, n);
             || place == Boundary
             || (place.InBody? && place.contentType != APPLICATION_DATA && place.remaining < |payload|)
    ensures Leaves(DirectionStep(StateAt(records, n, origin), ToU32(origin.seqNumber + n), payload, options),
                   StateAt(records, n + |payload|, origin), StreamVerdict(records, n, n + |payload|, options))
            <==> PlaceAt(records, n + |payload|) != InHeader
    ensures PlaceAt(records, n + |payload|) == InHeader ==>
              Falters(DirectionStep(StateAt(records, n, origin), ToU32(origin.seqNumber + n), payload, options),
                      StateAt(records, n + |payload|, origin), |payload|)
  {
    hide DirectionStep;
    hide RecordsStep;
    hide PlaceAt;
    hide AppDataSeenAt;
    hide RestAt;
    hide Stream;
    hide Leaves;
    hide ToU32;
    hide AdvanceTcpSeq;
    hide VerdictBehind;
    hide StreamVerdict;
    var place, seqNumber := PlaceAt(records, n), ToU32(origin.seqNumber + n);
    var seen := origin.appDataSeen || AppDataSeenAt(records, n);
    var left := if place.InBody? then place.remaining else 0;
    PlaceBounds(records, n);
    GoOn(records, n, |payload|);
    StreamAfter(records, n);
    VerdictGoesOn(records, n, |payload|, options);
    var rest := RestAt(records, n);
    SliceOfSlice(Stream(records), n, payload, left);
    AdvanceIsExact(origin.seqNumber, n, n + |payload|);
    FromPlace(place, seen, seqNumber, payload, rest, options);
  }

  lemma {:induction false} AtStart(records: seq<Record>)
    ensures PlaceAt(records, 0) == Boundary && !AppDataSeenAt(records, 0) && RestAt(records, 0) == records
  {
  }

  /** One segment of a stream: the tracker follows it exactly when the segment is clean. Otherwise: a
      segment that runs past the end of an earlier application data record resets the direction; a first
      segment of less than a record header is NoRecord; and any other segment that ends inside a record
      header leaves the one-shot state, but is Malformed. */
  lemma {:induction false} SegmentAgreement(
    state: DirectionState, records: seq<Record>, n: nat, payload: seq<byte>, origin: Origin, options: TlsOptions)
    requires payload != [] && n + |payload| <= |Stream(records)|
    requires payload == Stream(records)[n..n + |payload|]
    requires PlaceAt(records, n) != InHeader
    requires AgreesAt(state, records, n, origin)
    ensures Leaves(DirectionStep(state, ToU32(origin.seqNumber + n), payload, options),
                   StateAt(records, n + |payload|, origin), StreamVerdict(records, n, n + |payload|, options))
            <==> Clean(records, n, n + |payload|)
    ensures !Clean(records, n, n + |payload|) ==>
              var outcome := DirectionStep(state, ToU32(origin.seqNumber + n), payload, options);
              if Overruns(records, n, n + |payload|) then
                outcome
                == Outcome(Some(FRESH.(confirmedTls := true,
                                       hasSeenApplicationData := origin.appDataSeen || AppDataSeenAt(records, n))),
                           false, Verdict(NoApplicationData, |payload|))
              else if n == 0 && |payload| < RECORD_HEADER_SIZE then
                outcome
                == Outcome(if state.confirmedTls then Some(state) else None, false, Verdict(NoRecord, |payload|))
              else
                Falters(outcome, StateAt(records, n + |payload|, origin), |payload|)
  {
    hide DirectionStep;
    hide RecordsStep;
    hide Stream;
    hide PlaceAt;
    hide AppDataSeenAt;
    hide ToU32;
    hide AdvanceTcpSeq;
    hide StreamVerdict;
    hide VerdictWithin;
    var place := PlaceAt(records, n);
    var seen := origin.appDataSeen || AppDataSeenAt(records, n);
    PlaceBounds(records, n);
    AtStart(records);
    if n == 0 {
      FirstSegment(state, records, payload, origin, options);
    } else if place.InBody? && |payload| <= place.remaining {
      AtStart(RestAt(records, n));
      VerdictInside(records, n, |payload|, options);
      GoOn(records, n, |payload|);
      AdvanceIsExact(origin.seqNumber, n, n + |payload|);
      InsideActiveRecord(place, seen, ToU32(origin.seqNumber + n), payload, options);
    } else if place.InBody? && place.contentType == APPLICATION_DATA {
      PastActiveRecord(place, seen, ToU32(origin.seqNumber + n), payload, options);
    } else {
      SegmentIntoRest(records, n, payload, origin, options);
    }
  }

  /** After a segment that ended inside a record header, the next one in sequence is read as if it started
      with a record: unless its first bytes happen to look like a header, it is Malformed and the place in
      the stream is lost, without losing synchronization; if they do, the entry is the place that the headers
      found there describe. */
  lemma {:induction false} AfterSplitHeader(seen: bool, seqNumber: u32, payload: seq<byte>, options: TlsOptions)
    requires payload != []
    ensures var outcome := DirectionStep(StateFor(InHeader, seen, seqNumber), seqNumber, payload, options);
            var found, next := RecordsFrom(payload, 0), AdvanceTcpSeq(seqNumber, |payload|);
            if ReadTlsRecordHeader(payload, 0).None? then
              Falters(outcome, StateFor(Boundary, seen, next), |payload|)
            else
              && outcome.next == Some(StateFor(EndOf(found.headers, |payload|),
                                               seen || HasType(found.headers, APPLICATION_DATA), next))
              && (outcome.verdict.disposition == Malformed <==> found.bad)
              && outcome.verdict.disposition != NoRecord
  {
    hide ReadTlsRecordHeader;
    hide HasType;
    var found := RecordsFrom(payload, 0);
    NoHeaders(|payload|);
    if found.headers == [] {
      assert !HasType(found.headers, APPLICATION_DATA);
    }
  }

  // ---------------------------------------------------------------------------------------------
  // A whole run

  /** The bytes that a run delivers in one direction, in order. */
  function Delivered(events: seq<Segment>, key: DirectionKey): seq<byte> {
    if events == [] then []
    else
      var last := events[|events| - 1];
      Delivered(events[..|events| - 1], key) + if last.key == key then last.payload else []
  }

  /** How much of the stream had been delivered before event `i`. */
  function PositionAt(events: seq<Segment>, key: DirectionKey, i: nat): nat
    requires i <= |events|
  {
    |Delivered(events[..i], key)|
  }

  /** Event `i` carries data of the direction. */
  predicate IsData(events: seq<Segment>, key: DirectionKey, i: nat)
    requires i < |events|
  {
    events[i].key == key && events[i].payload != []
  }

  /** The run delivers a prefix of the stream in one direction, in order and without gaps or repeats, the
      first byte at sequence number `origin`. Segments without data, of other flows and of the reverse
      direction may come in between. */
  ghost predicate InOrder(events: seq<Segment>, key: DirectionKey, records: seq<Record>, origin: Origin) {
    && Delivered(events, key) <= Stream(records)
    && (forall i :: 0 <= i < |events| && IsData(events, key, i) ==>
          events[i].seqNumber == ToU32(origin.seqNumber + PositionAt(events, key, i)))
  }

  /** The segment resets the flow, in either direction. */
  predicate Resets(segment: Segment, key: DirectionKey) {
    segment.InFlow(key) && segment.SynOrRst()
  }

  /** The index of the last segment that resets the flow, or 0 if there is none. */
  function LastReset(events: seq<Segment>, key: DirectionKey): (at: nat)
    ensures at <= |events|
  {
    if events == [] then 0
    else if Resets(events[|events| - 1], key) then |events| - 1
    else LastReset(events[..|events| - 1], key)
  }

  /** What happened since the flow was last reset, that segment included; or everything. */
  function SinceReset(events: seq<Segment>, key: DirectionKey): seq<Segment> {
    events[LastReset(events, key)..]
  }

  /** The table when the flow was last reset. */
  function TableAtReset(events: seq<Segment>, key: DirectionKey, options: TlsOptions): Table {
    Run(map[], events[..LastReset(events, key)], options)
  }

  /** Nothing but possibly the first segment resets the flow. */
  ghost predicate NoLaterReset(events: seq<Segment>, key: DirectionKey) {
    forall i :: 0 < i < |events| ==> !Resets(events[i], key)
  }

  /** The entry of a direction that a segment meets: its flags, and a gap in the sequence, have had their effect. */
  function EntryMet(table: Table, segment: Segment, key: DirectionKey): DirectionState {
    var entry := DirectionOf(AfterFlags(table, segment), key);
    if segment.key == key && segment.payload != [] then Resynchronize(entry, segment.seqNumber) else entry
  }

  /** The entry of a direction that a run begins with. */
  function EntryAtStart(table: Table, events: seq<Segment>, key: DirectionKey): DirectionState {
    if events == [] then DirectionOf(table, key) else EntryMet(table, events[0], key)
  }

  /** A stream can begin: the direction is not synchronized, perhaps because the first segment has just reset
      it or left a gap, and it accepts the first record. */
  predicate Begins(table: Table, events: seq<Segment>, key: DirectionKey, records: seq<Record>) {
    var entry := EntryAtStart(table, events, key);
    !entry.synchronized && Opens(entry, records)
  }

  predicate CleanEvent(events: seq<Segment>, key: DirectionKey, records: seq<Record>, i: nat)
    requires i < |events|
  {
    IsData(events, key, i) ==> Clean(records, PositionAt(events, key, i), PositionAt(events, key, i + 1))
  }

  /** Every data segment of the direction is clean. */
  ghost predicate CleanRun(events: seq<Segment>, key: DirectionKey, records: seq<Record>) {
    forall i :: 0 <= i < |events| ==> CleanEvent(events, key, records, i)
  }

  /** After every data segment of the direction, the tracker's entry and verdict are those of a reader of the
      stream. */
  ghost predicate AgreesThroughout(
    table: Table, events: seq<Segment>, key: DirectionKey, records: seq<Record>, origin: Origin, options: TlsOptions)
  {
    forall i :: 0 <= i < |events| ==> AgreesAfter(table, events, key, records, origin, i, options)
  }

  ghost predicate AgreesAfter(
    table: Table, events: seq<Segment>, key: DirectionKey, records: seq<Record>, origin: Origin, i: nat,
    options: TlsOptions)
    requires i < |events|
  {
    var verdict, from := VerdictAt(table, events, i, options), PositionAt(events, key, i);
    var after := Run(table, events[..i + 1], options);
    IsData(events, key, i) ==>
      && key in after
      && after[key] == StateAt(records, PositionAt(events, key, i + 1), origin)
      && verdict == StreamVerdict(records, from, from + |events[i].payload|, options)
  }

  /** A segment resets the flow before anything else. */
  lemma {:induction false} EntryAfterFlags(table: Table, segment: Segment, key: DirectionKey)
    ensures DirectionOf(AfterFlags(table, segment), key)
            == if Resets(segment, key) then FRESH else DirectionOf(table, key)
  {
    assert key.Reverse().Reverse() == key;
    assert segment.key.Reverse().Reverse() == segment.key;
  }

  /** A segment of another direction, its flags aside, leaves an entry alone, or confirms it. */
  lemma {:induction false} OtherDirection(table: Table, segment: Segment, key: DirectionKey, options: TlsOptions)
    requires TableInvariant(table) && segment.key != key
    ensures var before := DirectionOf(AfterFlags(table, segment), key);
            var after := DirectionOf(TableStep(table, segment, options).0, key);
            after == before || after == before.(confirmedTls := true)
  {
    hide DirectionStep;
    hide TableInvariant;
  }

  lemma {:induction false} EventsPrefix(events: seq<Segment>, key: DirectionKey, n: nat, i: nat)
    requires i <= n <= |events|
    ensures PositionAt(events[..n], key, i) == PositionAt(events, key, i)
    ensures events[..n][..i] == events[..i]
  {
    assert events[..n][..i] == events[..i];
  }

  lemma {:induction false} InOrderPrefix(events: seq<Segment>, key: DirectionKey, records: seq<Record>, origin: Origin)
    requires events != [] && InOrder(events, key, records, origin)
    ensures InOrder(events[..|events| - 1], key, records, origin)
  {
    hide Stream;
    hide ToU32;
    var before := events[..|events| - 1];
    forall i | 0 <= i < |before| && IsData(before, key, i)
      ensures before[i].seqNumber == ToU32(origin.seqNumber + PositionAt(before, key, i))
    {
      EventsPrefix(events, key, |before|, i);
      assert IsData(events, key, i);
    }
  }

  lemma {:induction false} EventPrefix(
    table: Table, events: seq<Segment>, key: DirectionKey, records: seq<Record>, origin: Origin, options: TlsOptions,
    n: nat, i: nat)
    requires i < n <= |events|
    ensures CleanEvent(events[..n], key, records, i) <==> CleanEvent(events, key, records, i)
    ensures AgreesAfter(table, events[..n], key, records, origin, i, options)
            <==> AgreesAfter(table, events, key, records, origin, i, options)
  {
    hide Run;
    hide StateAt;
    hide StreamVerdict;
    hide Clean;
    hide Delivered;
    EventsPrefix(events, key, n, i);
    EventsPrefix(events, key, n, i + 1);
  }

  lemma {:induction false} CleanRunSnoc(events: seq<Segment>, key: DirectionKey, records: seq<Record>)
    requires events != []
    ensures var n := |events| - 1;
            CleanRun(events, key, records)
            <==> CleanRun(events[..n], key, records) && CleanEvent(events, key, records, n)
  {
    var n := |events| - 1;
    forall i | 0 <= i < n
      ensures CleanEvent(events[..n], key, records, i) <==> CleanEvent(events, key, records, i)
    {
      EventsPrefix(events, key, n, i);
      EventsPrefix(events, key, n, i + 1);
    }
  }

  lemma {:induction false} AgreesThroughoutSnoc(
    table: Table, events: seq<Segment>, key: DirectionKey, records: seq<Record>, origin: Origin, options: TlsOptions)
    requires events != []
    ensures var n := |events| - 1;
            AgreesThroughout(table, events, key, records, origin, options)
            <==> AgreesThroughout(table, events[..n], key, records, origin, options)
                 && AgreesAfter(table, events, key, records, origin, n, options)
  {
    var n := |events| - 1;
    forall i | 0 <= i < n
      ensures AgreesAfter(table, events[..n], key, records, origin, i, options)
              <==> AgreesAfter(table, events, key, records, origin, i, options)
    {
      EventPrefix(table, events, key, records, origin, options, n, i);
    }
  }

  /** Without synchronization, nothing is known but what an initial entry says. */
  lemma {:induction false} UnsynchronizedIsInitial(table: Table, segment: Segment, key: DirectionKey)
    requires TableInvariant(table)
    ensures var entry := DirectionOf(table, key);
            !entry.synchronized ==> Initial(entry, entry.hasSeenApplicationData)
    ensures var entry := EntryMet(table, segment, key);
            !entry.synchronized ==> Initial(entry, entry.hasSeenApplicationData)
  {
    hide AfterFlags;
    EntryAfterFlags(table, segment, key);
    var entry := DirectionOf(table, key);
    assert entry == FRESH || StateInvariant(entry);
  }

  /** Once the flow is confirmed, a stream with any first record can begin wherever synchronization is lost: when
      the entry is unsynchronized already, or the first segment leaves a gap. */
  lemma {:induction false} UnsynchronizedBegins(
    table: Table, events: seq<Segment>, key: DirectionKey, records: seq<Record>)
    requires TableInvariant(table) && key in table && records != []
    requires events != [] && !Resets(events[0], key)
    requires || !table[key].synchronized
             || (IsData(events, key, 0) && events[0].seqNumber != table[key].expectedTcpSeq)
    ensures Begins(table, events, key, records)
    ensures EntryAtStart(table, events, key).hasSeenApplicationData == table[key].hasSeenApplicationData
  {
    hide AfterFlags;
    EntryAfterFlags(table, events[0], key);
    assert StateInvariant(table[key]);
  }

  /** A segment in sequence meets the entry as it is. */
  lemma {:induction false} InSequence(
    table: Table, segment: Segment, key: DirectionKey, records: seq<Record>, n: nat, origin: Origin)
    requires !Resets(segment, key) && AgreesAt(DirectionOf(table, key), records, n, origin)
    requires segment.key == key && segment.payload != [] ==> segment.seqNumber == ToU32(origin.seqNumber + n)
    ensures EntryMet(table, segment, key) == DirectionOf(table, key)
  {
    hide AfterFlags;
    hide ToU32;
    EntryAfterFlags(table, segment, key);
  }

  /** From any table with the invariant in which a stream can begin: the tracker agrees with the one-shot
      reader exactly on clean runs; and at the end of a clean run its entry is the one-shot state of
      everything delivered. */
  lemma {:induction false} StreamAgreementFrom(
    table: Table, events: seq<Segment>, key: DirectionKey, records: seq<Record>, origin: Origin, options: TlsOptions)
    requires TableInvariant(table) && Begins(table, events, key, records) && NoLaterReset(events, key)
    requires origin.appDataSeen == EntryAtStart(table, events, key).hasSeenApplicationData
    requires InOrder(events, key, records, origin)
    ensures AgreesThroughout(table, events, key, records, origin, options) <==> CleanRun(events, key, records)
    ensures CleanRun(events, key, records) && events != [] ==>
              && PlaceAt(records, |Delivered(events, key)|) != InHeader
              && AgreesAt(DirectionOf(Run(table, events, options), key), records, |Delivered(events, key)|, origin)
    decreases |events|
  {
    hide TableStep;
    hide AfterFlags;
    hide StateAt;
    hide Clean;
    hide TableInvariant;
    hide InOrder;
    hide CleanEvent;
    hide AgreesAfter;
    hide AgreesAt;
    hide EntryMet;
    if events != [] {
      var n := |events| - 1;
      var before, last := events[..n], events[n];
      InOrderPrefix(events, key, records, origin);
      RunKeepsTable(table, before, options);
      CleanRunSnoc(events, key, records);
      AgreesThroughoutSnoc(table, events, key, records, origin, options);
      if n == 0 {
        FirstEvent(table, last, key, records, origin);
      } else {
        StreamAgreementFrom(table, before, key, records, origin, options);
        if CleanRun(before, key, records) {
          LastInOrder(events, key, records, origin);
          InSequence(Run(table, before, options), last, key, records, |Delivered(before, key)|, origin);
        }
      }
      if CleanRun(before, key, records) {
        LastEvent(table, events, key, records, origin, options);
      }
    }
  }

  lemma {:induction false} FirstEvent(
    table: Table, segment: Segment, key: DirectionKey, records: seq<Record>, origin: Origin)
    requires TableInvariant(table) && Begins(table, [segment], key, records)
    requires origin.appDataSeen == EntryAtStart(table, [segment], key).hasSeenApplicationData
    ensures AgreesAt(EntryMet(table, segment, key), records, 0, origin)
  {
    hide EntryMet;
    hide TableInvariant;
    UnsynchronizedIsInitial(table, segment, key);
  }

  lemma {:induction false} LastInOrder(events: seq<Segment>, key: DirectionKey, records: seq<Record>, origin: Origin)
    requires events != [] && InOrder(events, key, records, origin)
    ensures var last := events[|events| - 1];
            IsData(events, key, |events| - 1) ==>
              last.seqNumber == ToU32(origin.seqNumber + |Delivered(events[..|events| - 1], key)|)
  {
    hide Stream;
    hide ToU32;
  }

  lemma {:induction false} RunKeepsTable(table: Table, events: seq<Segment>, options: TlsOptions)
    requires TableInvariant(table)
    ensures TableInvariant(Run(table, events, options))
    decreases |events|
  {
    hide TableInvariant;
    hide TableStep;
    if events != [] {
      RunKeepsTable(table, events[..|events| - 1], options);
      StepKeepsInvariant(Run(table, events[..|events| - 1], options), events[|events| - 1], options);
    }
  }

  lemma {:induction false} LastEvent(
    table: Table, events: seq<Segment>, key: DirectionKey, records: seq<Record>, origin: Origin, options: TlsOptions)
    requires events != [] && InOrder(events, key, records, origin)
    requires var before := events[..|events| - 1];
             && TableInvariant(Run(table, before, options))
             && PlaceAt(records, |Delivered(before, key)|) != InHeader
             && AgreesAt(EntryMet(Run(table, before, options), events[|events| - 1], key), records,
                         |Delivered(before, key)|, origin)
    ensures AgreesAfter(table, events, key, records, origin, |events| - 1, options)
            <==> CleanEvent(events, key, records, |events| - 1)
    ensures CleanEvent(events, key, records, |events| - 1) ==>
              && PlaceAt(records, |Delivered(events, key)|) != InHeader
              && AgreesAt(DirectionOf(Run(table, events, options), key), records, |Delivered(events, key)|, origin)
  {
    hide DirectionStep;
    hide TableStep;
    hide Stream;
    hide PlaceAt;
    hide AfterFlags;
    hide TableInvariant;
    hide InOrder;
    var n := |events| - 1;
    var before, last := events[..n], events[n];
    var now := Run(table, before, options);
    assert events[..n + 1] == events;
    if last.key != key {
      OtherDirection(now, last, key, options);
      assert Delivered(events, key) == Delivered(before, key);
    } else if last.payload == [] {
      NoPayload(now, last, options);
      assert Delivered(events, key) == Delivered(before, key);
    } else {
      LastSegment(table, events, key, records, origin, options);
    }
  }

  lemma {:induction false} NoPayload(table: Table, segment: Segment, options: TlsOptions)
    requires segment.payload == []
    ensures TableStep(table, segment, options).0 == AfterFlags(table, segment)
  {
  }

  lemma {:induction false} LastSegment(
    table: Table, events: seq<Segment>, key: DirectionKey, records: seq<Record>, origin: Origin, options: TlsOptions)
    requires events != [] && IsData(events, key, |events| - 1)
    requires InOrder(events, key, records, origin)
    requires var before := events[..|events| - 1];
             && PlaceAt(records, |Delivered(before, key)|) != InHeader
             && AgreesAt(EntryMet(Run(table, before, options), events[|events| - 1], key), records,
                         |Delivered(before, key)|, origin)
    ensures AgreesAfter(table, events, key, records, origin, |events| - 1, options)
            <==> CleanEvent(events, key, records, |events| - 1)
    ensures CleanEvent(events, key, records, |events| - 1) ==>
              && PlaceAt(records, |Delivered(events, key)|) != InHeader
              && DirectionOf(Run(table, events, options), key) == StateAt(records, |Delivered(events, key)|, origin)
  {
    hide DirectionStep;
    hide TableStep;
    hide StreamVerdict;
    hide Overruns;
    hide StateAt;
    hide Stream;
    hide PlaceAt;
    hide AgreesAt;
    hide Run;
    hide AfterFlags;
    hide InOrder;
    hide Delivered;
    var n := |events| - 1;
    var before, last := events[..n], events[n];
    assert events[..n + 1] == events;
    var from := |Delivered(before, key)|;
    LastPayload(events, key, records, origin);
    var now := Run(table, before, options);
    RunSnoc(table, events, n, options);
    EntryAfterStep(now, last, options);
    ResynchronizedStep(DirectionOf(AfterFlags(now, last), key), last.seqNumber, last.payload, options);
    SegmentAgreement(EntryMet(now, last, key), records, from, last.payload, origin, options);
  }

  /** A gap has its effect once. */
  lemma {:induction false} ResynchronizedStep(
    state: DirectionState, seqNumber: u32, payload: seq<byte>, options: TlsOptions)
    requires payload != []
    ensures DirectionStep(Resynchronize(state, seqNumber), seqNumber, payload, options)
            == DirectionStep(state, seqNumber, payload, options)
  {
    hide RecordsStep;
    assert Resynchronize(Resynchronize(state, seqNumber), seqNumber) == Resynchronize(state, seqNumber);
  }

  lemma {:induction false} LastPayload(events: seq<Segment>, key: DirectionKey, records: seq<Record>, origin: Origin)
    requires events != [] && IsData(events, key, |events| - 1)
    requires InOrder(events, key, records, origin)
    ensures var last, from := events[|events| - 1], |Delivered(events[..|events| - 1], key)|;
            && |Delivered(events, key)| == from + |last.payload| <= |Stream(records)|
            && last.payload == Stream(records)[from..from + |last.payload|]
            && last.seqNumber == ToU32(origin.seqNumber + from)
  {
    hide Stream;
    hide ToU32;
    var last, from := events[|events| - 1], |Delivered(events[..|events| - 1], key)|;
    assert Delivered(events, key) == Delivered(events[..|events| - 1], key) + last.payload;
    assert last.payload == Delivered(events, key)[from..from + |last.payload|];
  }

  /** The last reset is the last; before it anything may have happened, without it nothing reset the flow. */
  lemma {:induction false} LastResetIsLast(events: seq<Segment>, key: DirectionKey)
    ensures var at := LastReset(events, key);
            && NoLaterReset(events[at..], key)
            && (at > 0 ==> at < |events| && Resets(events[at], key))
  {
    if events != [] {
      var n := |events| - 1;
      LastResetIsLast(events[..n], key);
      var at := LastReset(events, key);
      if !Resets(events[n], key) {
        forall i | 0 < i < |events| - at
          ensures !Resets(events[at..][i], key)
        {
          if at + i < n {
            assert events[at..][i] == events[..n][at..][i];
          }
        }
      }
    }
  }

  lemma {:induction false} RunSplit(table: Table, events: seq<Segment>, at: nat, options: TlsOptions)
    requires at <= |events|
    ensures Run(table, events, options) == Run(Run(table, events[..at], options), events[at..], options)
    decreases |events|
  {
    hide TableStep;
    if at == |events| {
      assert events[..at] == events;
    } else {
      var n := |events| - 1;
      RunSplit(table, events[..n], at, options);
      assert events[..n][..at] == events[..at];
      assert events[at..][..n - at] == events[..n][at..];
    }
  }

  /** Over every run, wherever in it a stream can begin, whatever came before: if from there on nothing resets
      the flow and the direction delivers a prefix of the stream, the tracker agrees with the one-shot reader
      after every data segment exactly if all those segments are clean, and then its entry is the one-shot
      state of everything delivered; what it knew of earlier application data is carried over. */
  lemma {:induction false} ResumedAgreement(
    events: seq<Segment>, at: nat, key: DirectionKey, records: seq<Record>, origin: Origin, options: TlsOptions)
    requires at <= |events| && NoLaterReset(events[at..], key)
    requires var table := Run(map[], events[..at], options);
             && Begins(table, events[at..], key, records)
             && origin.appDataSeen == EntryAtStart(table, events[at..], key).hasSeenApplicationData
    requires InOrder(events[at..], key, records, origin)
    ensures var since, table := events[at..], Run(map[], events[..at], options);
            && (AgreesThroughout(table, since, key, records, origin, options) <==> CleanRun(since, key, records))
            && (CleanRun(since, key, records) ==>
                  AgreesAt(DirectionOf(Run(map[], events, options), key), records, |Delivered(since, key)|, origin))
  {
    hide AgreesThroughout;
    hide CleanRun;
    hide InOrder;
    hide StateAt;
    hide TableInvariant;
    hide Run;
    hide AgreesAt;
    ReachableTableInvariant(events[..at], options);
    RunSplit(map[], events, at, options);
    if events[at..] == [] {
      NotYetBegun(Run(map[], events[..at], options), key, records, origin, options);
    }
    StreamAgreementFrom(Run(map[], events[..at], options), events[at..], key, records, origin, options);
  }

  lemma {:induction false} NotYetBegun(
    table: Table, key: DirectionKey, records: seq<Record>, origin: Origin, options: TlsOptions)
    requires TableInvariant(table) && Begins(table, [], key, records)
    requires origin.appDataSeen == DirectionOf(table, key).hasSeenApplicationData
    ensures Run(table, [], options) == table && |Delivered([], key)| == 0
    ensures AgreesAt(DirectionOf(table, key), records, 0, origin)
  {
    var entry := DirectionOf(table, key);
    assert entry == FRESH || StateInvariant(entry);
  }

  /** Over every run, whatever came before the flow's last SYN or RST, if the direction has since delivered a
      prefix of a record stream that starts with a Handshake: the tracker agrees with the one-shot reader
      after every data segment exactly if all those segments are clean; and then its entry is the one-shot
      state of everything delivered. */
  lemma {:induction false} StreamAgreement(
    events: seq<Segment>, key: DirectionKey, records: seq<Record>, origin: Origin, options: TlsOptions)
    requires records != [] && records[0].contentType == HANDSHAKE && !origin.appDataSeen
    requires InOrder(SinceReset(events, key), key, records, origin)
    ensures var since := SinceReset(events, key);
            && (AgreesThroughout(TableAtReset(events, key, options), since, key, records, origin, options)
                <==> CleanRun(since, key, records))
            && (CleanRun(since, key, records) ==>
                  AgreesAt(DirectionOf(Run(map[], events, options), key), records, |Delivered(since, key)|, origin))
  {
    hide AgreesThroughout;
    hide CleanRun;
    hide InOrder;
    hide AgreesAt;
    hide Run;
    LastResetIsLast(events, key);
    EmptyRun(options);
    var at := LastReset(events, key);
    assert at == 0 ==> events[..at] == [];
    FreshStart(TableAtReset(events, key, options), SinceReset(events, key), key);
    ResumedAgreement(events, at, key, records, origin, options);
  }

  /** With nothing stored, or when the first segment resets the flow, a direction starts afresh. */
  lemma {:induction false} FreshStart(table: Table, events: seq<Segment>, key: DirectionKey)
    requires table == map[] || (events != [] && Resets(events[0], key))
    ensures EntryAtStart(table, events, key) == FRESH
  {
    hide AfterFlags;
    if events != [] {
      EntryAfterFlags(table, events[0], key);
    }
  }

  lemma {:induction false} EmptyRun(options: TlsOptions)
    ensures Run(map[], [], options) == map[]
  {
  }

  /** Two runs that have since the flow's last reset delivered the same bytes of a stream in clean segments
      leave the same entry, however they cut them, and whatever happened before or in between. */
  lemma {:induction false} SegmentationDoesNotMatter(
    first: seq<Segment>, second: seq<Segment>, key: DirectionKey, records: seq<Record>, origin: Origin,
    options: TlsOptions)
    requires records != [] && records[0].contentType == HANDSHAKE && !origin.appDataSeen
    requires InOrder(SinceReset(first, key), key, records, origin) && CleanRun(SinceReset(first, key), key, records)
    requires InOrder(SinceReset(second, key), key, records, origin) && CleanRun(SinceReset(second, key), key, records)
    requires |Delivered(SinceReset(first, key), key)| == |Delivered(SinceReset(second, key), key)| > 0
    ensures DirectionOf(Run(map[], first, options), key) == DirectionOf(Run(map[], second, options), key)
  {
    hide StateAt;
    StreamAgreement(first, key, records, origin, options);
    StreamAgreement(second, key, records, origin, options);
  }
}
