/** Properties of the TLS tracker over whole runs: the table invariant, what confirmation means in
    terms of the history, locality of a step, and independence from the absolute sequence numbers. */
module TlsTraces {
  import opened Bytes
  import opened Config
  import opened PacketDecode
  import opened Tls

  /** The table after a run of segments. */
  function Run(table: Table, events: seq<Segment>, options: TlsOptions): Table {
    if events == [] then table
    else TableStep(Run(table, events[..|events| - 1], options), events[|events| - 1], options).0
  }

  /** The verdict on event `i` of a run. */
  function VerdictAt(table: Table, events: seq<Segment>, i: nat, options: TlsOptions): Verdict
    requires i < |events|
  {
    TableStep(Run(table, events[..i], options), events[i], options).1
  }

  lemma {:induction false} RunSnoc(table: Table, events: seq<Segment>, i: nat, options: TlsOptions)
    requires i < |events|
    ensures Run(table, events[..i + 1], options) == TableStep(Run(table, events[..i], options), events[i], options).0
  {
    assert events[..i + 1][..i] == events[..i];
  }

  /** What a data segment leaves in the table for its direction, once its flags have had their effect. */
  lemma {:induction false} EntryAfterStep(table: Table, segment: Segment, options: TlsOptions)
    requires segment.payload != []
    ensures var before := DirectionOf(AfterFlags(table, segment), segment.key);
            var outcome := DirectionStep(before, segment.seqNumber, segment.payload, options);
            var (next, verdict) := TableStep(table, segment, options);
            && verdict == outcome.verdict
            && (segment.key in next <==> outcome.next.Some?)
            && (outcome.next.Some? ==> next[segment.key] == outcome.next.value)
  {
  }

  /** Every reachable table satisfies the invariant. */
  lemma {:induction false} ReachableTableInvariant(events: seq<Segment>, options: TlsOptions)
    ensures TableInvariant(Run(map[], events, options))
  {
    if events != [] {
      ReachableTableInvariant(events[..|events| - 1], options);
      StepKeepsInvariant(Run(map[], events[..|events| - 1], options), events[|events| - 1], options);
    }
  }

  // ---------------------------------------------------------------------------------------------
  // Confirmation history

  /** The record headers that the tracker accepts in a segment. */
  function AcceptedHeaders(previous: DirectionState, seqNumber: u32, payload: seq<byte>): seq<Header> {
    var state := Resynchronize(previous, seqNumber);
    var inside: int := state.activeRecordRemainingBytes;
    if state.hasActiveRecord && (inside >= |payload| || state.activeRecordConstrictible) then []
    else
      var headers := RecordsFrom(payload, if state.hasActiveRecord then inside else 0).headers;
      if Accepts(state, headers) then headers else []
  }

  /** The tracker accepts a Handshake record header in this segment. */
  predicate AcceptsHandshake(table: Table, segment: Segment) {
    HasType(
      AcceptedHeaders(DirectionOf(AfterFlags(table, segment), segment.key), segment.seqNumber, segment.payload),
      HANDSHAKE)
  }

  lemma {:induction false} HandshakeMeansAccepted(
    state: DirectionState, seqNumber: u32, payload: seq<byte>, options: TlsOptions)
    requires payload != []
    ensures DirectionStep(state, seqNumber, payload, options).handshake
            <==> HasType(AcceptedHeaders(state, seqNumber, payload), HANDSHAKE)
  {
  }

  /** A direction is stored after a segment exactly when its flow was confirmed by this segment, or
      was confirmed before and not reset by it. */
  lemma {:induction false} StoredAfterStep(table: Table, segment: Segment, key: DirectionKey, options: TlsOptions)
    requires TableInvariant(table)
    ensures key in TableStep(table, segment, options).0
            <==> (if segment.InFlow(key) then AcceptsHandshake(table, segment) || (key in table && !segment.SynOrRst())
                  else key in table)
  {
    var cleared := AfterFlags(table, segment);
    ClearedEntryInvariant(table, segment);
    assert segment.key.Reverse().Reverse() == segment.key;
    assert key.Reverse().Reverse() == key;
    if segment.payload != [] {
      var state := DirectionOf(cleared, segment.key);
      DirectionStepKeepsInvariant(state, segment.seqNumber, segment.payload, options);
      HandshakeMeansAccepted(state, segment.seqNumber, segment.payload, options);
      assert state.confirmedTls <==> segment.key in cleared;
    } else {
      assert AcceptedHeaders(DirectionOf(cleared, segment.key), segment.seqNumber, segment.payload) == [];
    }
  }

  /** Some segment of the flow carried an accepted Handshake, and no later segment of the flow reset it. */
  ghost predicate HandshakeSinceReset(events: seq<Segment>, key: DirectionKey, options: TlsOptions) {
    exists j :: 0 <= j < |events| && HandshakeAt(events, j, key, options) && NoResetAfter(events, j, key)
  }

  ghost predicate HandshakeAt(events: seq<Segment>, j: nat, key: DirectionKey, options: TlsOptions)
    requires j < |events|
  {
    events[j].InFlow(key) && AcceptsHandshake(Run(map[], events[..j], options), events[j])
  }

  lemma {:induction false} HandshakeAtPrefix(
    events: seq<Segment>, n: nat, j: nat, key: DirectionKey, options: TlsOptions)
    requires j < n <= |events|
    ensures HandshakeAt(events[..n], j, key, options) <==> HandshakeAt(events, j, key, options)
  {
    assert events[..n][..j] == events[..j];
  }

  /** No segment of the flow after event `j` resets it. */
  ghost predicate NoResetAfter(events: seq<Segment>, j: nat, key: DirectionKey) {
    forall i :: j < i < |events| && events[i].InFlow(key) ==> !events[i].SynOrRst()
  }

  lemma {:induction false} NoResetAfterSnoc(events: seq<Segment>, j: nat, key: DirectionKey)
    requires j < |events|
    ensures var n := |events| - 1;
            NoResetAfter(events, j, key)
            <==> j == n || (NoResetAfter(events[..n], j, key) && !(events[n].InFlow(key) && events[n].SynOrRst()))
  {
    var n := |events| - 1;
    assert forall i :: 0 <= i < n ==> events[i] == events[..n][i];
  }

  lemma {:induction false} HandshakeSinceResetSnoc(events: seq<Segment>, key: DirectionKey, options: TlsOptions)
    requires events != []
    ensures var n := |events| - 1;
            HandshakeSinceReset(events, key, options)
            <==> HandshakeAt(events, n, key, options)
                 || (HandshakeSinceReset(events[..n], key, options) && !(events[n].InFlow(key) && events[n].SynOrRst()))
  {
    hide HandshakeAt;
    hide NoResetAfter;
    var n := |events| - 1;
    var before := events[..n];
    NoResetAfterSnoc(events, n, key);
    if HandshakeSinceReset(before, key, options) && !(events[n].InFlow(key) && events[n].SynOrRst()) {
      var j :| 0 <= j < n && HandshakeAt(before, j, key, options) && NoResetAfter(before, j, key);
      HandshakeAtPrefix(events, n, j, key, options);
      NoResetAfterSnoc(events, j, key);
    }
    if HandshakeSinceReset(events, key, options) && !HandshakeAt(events, n, key, options) {
      var j :| 0 <= j < |events| && HandshakeAt(events, j, key, options) && NoResetAfter(events, j, key);
      assert j < n;
      HandshakeAtPrefix(events, n, j, key, options);
      NoResetAfterSnoc(events, j, key);
    }
  }

  /** In every reachable table a direction is stored, and then confirmed, exactly when a Handshake was
      accepted in either direction since the last SYN or RST of the flow. */
  lemma {:induction false} ConfirmationHistory(events: seq<Segment>, key: DirectionKey, options: TlsOptions)
    ensures key in Run(map[], events, options) <==> HandshakeSinceReset(events, key, options)
    ensures DirectionOf(Run(map[], events, options), key).confirmedTls <==> HandshakeSinceReset(events, key, options)
  {
    if events != [] {
      var n := |events| - 1;
      ConfirmationHistory(events[..n], key, options);
      HandshakeSinceResetSnoc(events, key, options);
      ReachableTableInvariant(events[..n], options);
      StoredAfterStep(Run(map[], events[..n], options), events[n], key, options);
    }
    ReachableTableInvariant(events, options);
  }

  /** A segment is cut only in a flow with a Handshake since its last reset, this segment included. */
  lemma {:induction false} CutNeedsHandshake(events: seq<Segment>, i: nat, options: TlsOptions)
    requires i < |events| && VerdictAt(map[], events, i, options).disposition == AppDataPrefix
    ensures HandshakeSinceReset(events[..i + 1], events[i].key, options)
  {
    RunSnoc(map[], events, i, options);
    ConfirmationHistory(events[..i + 1], events[i].key, options);
    var table := Run(map[], events[..i], options);
    ReachableTableInvariant(events[..i], options);
    var cleared := AfterFlags(table, events[i]);
    DirectionStepKeepsInvariant(DirectionOf(cleared, events[i].key), events[i].seqNumber, events[i].payload, options);
  }

  // ---------------------------------------------------------------------------------------------
  // Locality

  /** Two tables hold the same entries for a flow. */
  ghost predicate SameForFlow(a: Table, b: Table, key: DirectionKey) {
    && (key in a <==> key in b)
    && (key.Reverse() in a <==> key.Reverse() in b)
    && DirectionOf(a, key) == DirectionOf(b, key)
    && DirectionOf(a, key.Reverse()) == DirectionOf(b, key.Reverse())
  }

  lemma {:induction false} SameForFlowTransitive(a: Table, b: Table, c: Table, key: DirectionKey)
    requires SameForFlow(a, b, key) && SameForFlow(b, c, key)
    ensures SameForFlow(a, c, key)
  {
  }

  /** A segment is judged by the entries of its own flow alone, and changes no other entry. */
  lemma {:induction false} StepIsLocal(a: Table, b: Table, segment: Segment, key: DirectionKey, options: TlsOptions)
    ensures segment.InFlow(key) && SameForFlow(a, b, key) ==>
              && TableStep(a, segment, options).1 == TableStep(b, segment, options).1
              && SameForFlow(TableStep(a, segment, options).0, TableStep(b, segment, options).0, key)
    ensures !segment.InFlow(key) ==> SameForFlow(TableStep(a, segment, options).0, a, key)
  {
    hide DirectionStep;
    assert key.Reverse().Reverse() == key;
    assert segment.key.Reverse().Reverse() == segment.key;
    if segment.InFlow(key) && SameForFlow(a, b, key) {
      assert SameForFlow(AfterFlags(a, segment), AfterFlags(b, segment), key);
    }
  }

  // ---------------------------------------------------------------------------------------------
  // Sequence numbers matter only relative to one another

  function ShiftState(state: DirectionState, shift: u32): DirectionState {
    if state.synchronized then state.(expectedTcpSeq := ToU32(state.expectedTcpSeq + shift)) else state
  }

  function ShiftSegment(segment: Segment, key: DirectionKey, shift: u32): Segment {
    if segment.key == key then segment.(seqNumber := ToU32(segment.seqNumber + shift)) else segment
  }

  function ShiftTable(table: Table, key: DirectionKey, shift: u32): Table {
    if key in table then table[key := ShiftState(table[key], shift)] else table
  }

  function ShiftOutcome(outcome: Outcome, shift: u32): Outcome {
    outcome.(next := match outcome.next case None => None case Some(state) => Some(ShiftState(state, shift)))
  }

  lemma {:induction false} ShiftIsInjective(a: u32, b: u32, shift: u32)
    ensures ToU32(a + shift) == ToU32(b + shift) <==> a == b
  {
  }

  lemma {:induction false} ShiftAndAdvance(seqNumber: u32, payloadSize: nat, shift: u32)
    ensures AdvanceTcpSeq(ToU32(seqNumber + shift), payloadSize) == ToU32(AdvanceTcpSeq(seqNumber, payloadSize) + shift)
  {
    hide ToU32;
    WrapTwice(seqNumber + shift, payloadSize);
    WrapTwice(seqNumber + payloadSize, shift);
  }

  lemma {:induction false} WrapTwice(a: nat, b: nat)
    ensures ToU32(ToU32(a) + b) == ToU32(a + b)
  {
  }

  lemma {:induction false} ShiftedDirectionStep(
    state: DirectionState, seqNumber: u32, payload: seq<byte>, options: TlsOptions, shift: u32)
    requires payload != []
    requires state.hasActiveRecord ==> state.synchronized
    ensures DirectionStep(ShiftState(state, shift), ToU32(seqNumber + shift), payload, options)
            == ShiftOutcome(DirectionStep(state, seqNumber, payload, options), shift)
  {
    hide RecordsStep;
    hide AdvanceTcpSeq;
    hide ToU32;
    ShiftIsInjective(seqNumber, state.expectedTcpSeq, shift);
    ShiftAndAdvance(seqNumber, |payload|, shift);
    var current := Resynchronize(state, seqNumber);
    assert Resynchronize(ShiftState(state, shift), ToU32(seqNumber + shift)) == ShiftState(current, shift);
    ShiftedRecordsStep(current, seqNumber, payload, 0, options, shift);
    ShiftedRecordsStep(current.ClearActiveRecord(), seqNumber, payload, current.activeRecordRemainingBytes, options,
                       shift);
  }

  lemma {:induction false} ShiftedRecordsStep(
    state: DirectionState, seqNumber: u32, payload: seq<byte>, start: nat, options: TlsOptions, shift: u32)
    ensures RecordsStep(ShiftState(state, shift), ToU32(seqNumber + shift), payload, start, options)
            == ShiftOutcome(RecordsStep(state, seqNumber, payload, start, options), shift)
  {
    hide RecordsFrom;
    hide HasType;
    hide Decide;
    hide CandidateCut;
    hide AdvanceTcpSeq;
    hide ToU32;
    ShiftAndAdvance(seqNumber, |payload|, shift);
  }

  lemma {:induction false} ShiftedTableStep(
    table: Table, segment: Segment, key: DirectionKey, options: TlsOptions, shift: u32)
    requires TableInvariant(table)
    ensures TableStep(ShiftTable(table, key, shift), ShiftSegment(segment, key, shift), options)
            == (ShiftTable(TableStep(table, segment, options).0, key, shift), TableStep(table, segment, options).1)
  {
    hide DirectionStep;
    var cleared := AfterFlags(table, segment);
    assert AfterFlags(ShiftTable(table, key, shift), ShiftSegment(segment, key, shift))
           == ShiftTable(cleared, key, shift);
    ClearedEntryInvariant(table, segment);
    if segment.payload != [] {
      var state := DirectionOf(cleared, segment.key);
      var outcome := DirectionStep(state, segment.seqNumber, segment.payload, options);
      if segment.key == key {
        assert DirectionOf(ShiftTable(cleared, key, shift), key) == ShiftState(state, shift);
        ShiftedDirectionStep(state, segment.seqNumber, segment.payload, options, shift);
        ShiftedStore(cleared, key, key, outcome, shift);
      } else {
        ShiftedStore(cleared, segment.key, key, outcome, shift);
      }
    }
  }

  lemma {:induction false} ShiftedStore(
    table: Table, stored: DirectionKey, key: DirectionKey, outcome: Outcome, shift: u32)
    ensures Store(ShiftTable(table, key, shift), stored,
                  if stored == key then ShiftOutcome(outcome, shift) else outcome)
            == ShiftTable(Store(table, stored, outcome), key, shift)
  {
    var reverse := stored.Reverse();
    assert Confirm(ShiftTable(table, key, shift), reverse) == ShiftTable(Confirm(table, reverse), key, shift);
  }

  function ShiftEvents(events: seq<Segment>, key: DirectionKey, shift: u32): seq<Segment> {
    seq(|events|, i requires 0 <= i < |events| => ShiftSegment(events[i], key, shift))
  }

  lemma {:induction false} ShiftedEmpty(key: DirectionKey, shift: u32)
    ensures ShiftTable(map[], key, shift) == map[]
  {
  }

  /** Adding a constant modulo 2^32 to all sequence numbers of one direction changes no verdict. */
  lemma {:induction false} ShiftInvariance(events: seq<Segment>, key: DirectionKey, options: TlsOptions, shift: u32)
    ensures Run(map[], ShiftEvents(events, key, shift), options) == ShiftTable(Run(map[], events, options), key, shift)
    ensures forall i :: 0 <= i < |events| ==>
              VerdictAt(map[], ShiftEvents(events, key, shift), i, options) == VerdictAt(map[], events, i, options)
  {
    hide TableStep;
    hide ShiftTable;
    hide ShiftSegment;
    assert ShiftTable(map[], key, shift) == map[] by {
      ShiftedEmpty(key, shift);
    }
    if events != [] {
      var n := |events| - 1;
      var before, shifted := events[..n], ShiftEvents(events, key, shift);
      assert shifted[..n] == ShiftEvents(before, key, shift);
      ShiftInvariance(before, key, options, shift);
      ReachableTableInvariant(before, options);
      ShiftedTableStep(Run(map[], before, options), events[n], key, options, shift);
      forall i | 0 <= i < n
        ensures VerdictAt(map[], shifted, i, options) == VerdictAt(map[], events, i, options)
      {
        assert before[..i] == events[..i] && shifted[..n][..i] == shifted[..i];
        assert VerdictAt(map[], shifted[..n], i, options) == VerdictAt(map[], before, i, options);
      }
    }
  }

  // ---------------------------------------------------------------------------------------------
  // Cuts

  /** `LastAppData` is the last application data header: none follows it, and there is none without it. */
  lemma {:induction false} LastAppDataIsLast(headers: seq<Header>)
    ensures LastAppData(headers).None? <==> !HasType(headers, APPLICATION_DATA)
    ensures LastAppData(headers).Some? ==>
              exists i :: 0 <= i < |headers| && headers[i] == LastAppData(headers).value
                          && !HasType(headers[i + 1..], APPLICATION_DATA)
  {
    if headers != [] {
      var rest := headers[1..];
      LastAppDataIsLast(rest);
      assert headers == [headers[0]] + rest;
      HasTypeCons(headers[0], rest, APPLICATION_DATA);
      if LastAppData(rest).Some? {
        var i :| 0 <= i < |rest| && rest[i] == LastAppData(rest).value && !HasType(rest[i + 1..], APPLICATION_DATA);
        assert headers[i + 1] == rest[i] && headers[i + 1 + 1..] == rest[i + 1..];
      } else if LastAppData(headers).Some? {
        assert headers[0 + 1..] == rest;
      }
    }
  }

  /** Where a cut falls: after the kept bytes of the last application data record that starts in the
      segment, or after the kept bytes of a segment that ends an application data record. */
  lemma {:induction false} CutIsSound(state: DirectionState, seqNumber: u32, payload: seq<byte>, options: TlsOptions)
    requires payload != [] && (state == FRESH || StateInvariant(state))
    requires DirectionStep(state, seqNumber, payload, options).verdict.disposition == AppDataPrefix
    ensures var kept := DirectionStep(state, seqNumber, payload, options).verdict.keptPayload;
            var headers := AcceptedHeaders(state, seqNumber, payload);
            && kept < |payload|
            && (match LastAppData(headers)
                case Some(last) =>
                  kept == last.offset + Min(options.appDataKeepRecordBytes, Min(last.End(), |payload|) - last.offset)
                case None =>
                  && state.activeRecordContentType == APPLICATION_DATA
                  && state.activeRecordRemainingBytes == |payload|
                  && kept == Min(options.appDataContinuationKeepBytes, |payload|))
  {
    var current := Resynchronize(state, seqNumber);
    var start := if current.hasActiveRecord then current.activeRecordRemainingBytes as int else 0;
    RecordsStayInBounds(payload, start);
  }

  /** Headers found in a segment stand one after the other. */
  lemma {:induction false} HeadersAreConsecutive(payload: seq<byte>, offset: nat)
    ensures var headers := RecordsFrom(payload, offset).headers;
            && (headers != [] ==> headers[0].offset == offset)
            && forall i :: 0 <= i < |headers| - 1 ==> headers[i + 1].offset == headers[i].End()
    decreases |payload| - offset
  {
    var header := ReadTlsRecordHeader(payload, offset);
    if offset < |payload| && header.Some? {
      HeadersAreConsecutive(payload, header.value.End());
      HeaderIsInside(payload, offset);
    }
  }

  lemma {:induction false} HeadersAscend(headers: seq<Header>, i: nat, j: nat)
    requires forall k :: 0 <= k < |headers| - 1 ==> headers[k + 1].offset == headers[k].End()
    requires i < j < |headers|
    ensures headers[i].End() <= headers[j].offset
    decreases j - i
  {
    if i + 1 < j {
      HeadersAscend(headers, i + 1, j);
    }
  }

  lemma {:induction false} AcceptedAreConsecutive(previous: DirectionState, seqNumber: u32, payload: seq<byte>)
    ensures var headers := AcceptedHeaders(previous, seqNumber, payload);
            forall i :: 0 <= i < |headers| - 1 ==> headers[i + 1].offset == headers[i].End()
  {
    hide RecordsFrom;
    HeadersAreConsecutive(payload, 0);
    HeadersAreConsecutive(payload, Resynchronize(previous, seqNumber).activeRecordRemainingBytes);
  }

  lemma {:induction false} NoneBehind(headers: seq<Header>, at: nat)
    requires at < |headers| && !HasType(headers[at + 1..], APPLICATION_DATA)
    ensures forall j :: at < j < |headers| ==> headers[j].contentType != APPLICATION_DATA
  {
    forall j | at < j < |headers| ensures headers[j].contentType != APPLICATION_DATA {
      assert headers[at + 1..][j - at - 1] == headers[j];
    }
  }

  /** What a cut at the last application data record of a segment loses besides application data: no record of
      another type starts behind the cut exactly if the segment's last record is application data. */
  lemma {:induction false} LostBehindCut(
    state: DirectionState, seqNumber: u32, payload: seq<byte>, options: TlsOptions)
    requires payload != [] && (state == FRESH || StateInvariant(state))
    requires DirectionStep(state, seqNumber, payload, options).verdict.disposition == AppDataPrefix
    requires LastAppData(AcceptedHeaders(state, seqNumber, payload)).Some?
    ensures var kept := DirectionStep(state, seqNumber, payload, options).verdict.keptPayload;
            var headers := AcceptedHeaders(state, seqNumber, payload);
            && headers != []
            && ((forall i :: 0 <= i < |headers| && kept <= headers[i].offset ==>
                   headers[i].contentType == APPLICATION_DATA)
                <==> headers[|headers| - 1].contentType == APPLICATION_DATA)
  {
    hide DirectionStep;
    hide AcceptedHeaders;
    hide LastAppData;
    CutIsSound(state, seqNumber, payload, options);
    AcceptedAreConsecutive(state, seqNumber, payload);
    var headers := AcceptedHeaders(state, seqNumber, payload);
    LastAppDataIsLast(headers);
    var last, n := LastAppData(headers).value, |headers| - 1;
    var at :| 0 <= at < |headers| && headers[at] == last && !HasType(headers[at + 1..], APPLICATION_DATA);
    if headers[n].contentType == APPLICATION_DATA {
      NoneBehind(headers, at);
      forall i | 0 <= i < |headers| && headers[i].contentType != APPLICATION_DATA
        ensures headers[i].offset < last.offset
      {
        HeadersAscend(headers, i, at);
      }
    } else {
      HeadersAscend(headers, at, n);
    }
  }

  /** A segment of a confirmed direction that loses an alert: an empty application data record, then an empty
      Alert, of which a keep setting of 5 or less keeps nothing. */
  lemma {:induction false} AlertIsLost(seqNumber: u32, payload: seq<byte>, options: TlsOptions)
    requires payload == [0x17, 0x03, 0x03, 0, 0, 0x15, 0x03, 0x03, 0, 0]
    ensures var state := FRESH.(confirmedTls := true);
            && AcceptedHeaders(state, seqNumber, payload)
               == [Header(0, APPLICATION_DATA, 0), Header(5, ALERT, 0)]
            && DirectionStep(state, seqNumber, payload, options).verdict
               == Verdict(AppDataPrefix, Min(options.appDataKeepRecordBytes, 5))
  {
    var data, alert := Header(0, APPLICATION_DATA, 0), Header(5, ALERT, 0);
    assert ReadTlsRecordHeader(payload, 0) == Some(data) && ReadTlsRecordHeader(payload, 5) == Some(alert);
    assert RecordsFrom(payload, 10) == Records([], false);
    assert RecordsFrom(payload, 5) == Records([alert], false);
    assert RecordsFrom(payload, 0) == Records([data, alert], false);
    assert [data, alert][1..] == [alert] && [alert][1..] == [];
    assert LastAppData([alert][1..]) == None;
    assert LastAppData([alert]) == None;
    assert LastAppData([data, alert]) == Some(data);
  }

  /** At least as many bytes are kept. */
  predicate KeepsMore(more: TlsOptions, less: TlsOptions) {
    && less.appDataKeepRecordBytes <= more.appDataKeepRecordBytes
    && less.appDataContinuationKeepBytes <= more.appDataContinuationKeepBytes
  }

  /** The second verdict keeps no more than the first, and differs in kind only by being a cut. */
  predicate CutsDeeper(more: Verdict, less: Verdict) {
    && less.keptPayload <= more.keptPayload
    && (less.disposition != more.disposition
        ==> less.disposition == AppDataPrefix && more.disposition == NoApplicationData)
  }

  lemma {:induction false} KeepMonotoneRecords(
    state: DirectionState, seqNumber: u32, payload: seq<byte>, start: nat, more: TlsOptions, less: TlsOptions)
    requires KeepsMore(more, less)
    ensures var a := RecordsStep(state, seqNumber, payload, start, more);
            var b := RecordsStep(state, seqNumber, payload, start, less);
            b == a.(verdict := b.verdict) && CutsDeeper(a.verdict, b.verdict)
  {
  }

  lemma {:induction false} KeepMonotoneDirection(
    state: DirectionState, seqNumber: u32, payload: seq<byte>, more: TlsOptions, less: TlsOptions)
    requires KeepsMore(more, less) && payload != []
    ensures var a, b := DirectionStep(state, seqNumber, payload, more), DirectionStep(state, seqNumber, payload, less);
            b == a.(verdict := b.verdict) && CutsDeeper(a.verdict, b.verdict)
  {
    var current := Resynchronize(state, seqNumber);
    KeepMonotoneRecords(current, seqNumber, payload, 0, more, less);
    KeepMonotoneRecords(current.ClearActiveRecord(), seqNumber, payload, current.activeRecordRemainingBytes, more,
                        less);
  }

  /** Keep settings never reach the table, and keeping more never moves a cut forward. */
  lemma {:induction false} KeepMonotone(table: Table, segment: Segment, more: TlsOptions, less: TlsOptions)
    requires KeepsMore(more, less)
    ensures TableStep(table, segment, more).0 == TableStep(table, segment, less).0
    ensures CutsDeeper(TableStep(table, segment, more).1, TableStep(table, segment, less).1)
  {
    if segment.payload != [] {
      KeepMonotoneDirection(
        DirectionOf(AfterFlags(table, segment), segment.key), segment.seqNumber, segment.payload, more, less);
    }
  }

  // ---------------------------------------------------------------------------------------------
  // Packets

  /** A packet that is no readable TCP segment with payload changes nothing but by its flags; and the tracker proposes
      to keep the whole packet unless it cuts. */
  lemma {:induction false} PacketAnswer(
    table: Table, packet: seq<byte>, decoded: PacketDecodeResult, options: TlsOptions)
    requires |packet| < 0x1_0000_0000
    ensures var (next, answer) := PacketStep(table, packet, decoded, options);
            var end := decoded.transportPayloadOffset + decoded.transportPayloadLength;
            && (decoded.transportProtocol != Tcp ==> next == table && answer.disposition == Malformed)
            && (decoded.transportProtocol == Tcp && (decoded.transportPayloadLength == 0 || end > |packet|) ==>
                  && next == AfterFlags(table, Segment(MakeDirectionKey(decoded), 0, decoded.tcpFlags, []))
                  && answer.disposition == if decoded.transportPayloadLength == 0 then NoApplicationData else Malformed)
            && (answer.disposition != AppDataPrefix ==> answer.outputLen == |packet|)
  {
    hide DirectionStep;
    hide Store;
  }
}
