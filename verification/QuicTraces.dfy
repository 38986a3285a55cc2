/** Properties of the QUIC learner over whole runs: canonical flow keys, what is learned in terms of
    the history, what a matched short header proves, and locality of a step. */
module QuicTraces {
  import opened Bytes
  import opened Config
  import opened PacketDecode
  import opened Quic

  // ---------------------------------------------------------------------------------------------
  // Canonical flows

  lemma {:induction false} CompareBytesAntisymmetric(left: Address, right: Address, i: nat, n: nat)
    requires i <= n <= 16
    ensures CompareBytes(left, right, i, n) == -CompareBytes(right, left, i, n)
    decreases n - i
  {
    if i < n && left[i] == right[i] {
      CompareBytesAntisymmetric(left, right, i + 1, n);
    }
  }

  lemma {:induction false} CompareBytesZero(left: Address, right: Address, i: nat, n: nat)
    requires i <= n <= 16 && CompareBytes(left, right, i, n) == 0
    ensures left[i..n] == right[i..n]
    decreases n - i
  {
    if i < n {
      CompareBytesZero(left, right, i + 1, n);
      assert left[i..n] == [left[i]] + left[i + 1..n];
      assert right[i..n] == [right[i]] + right[i + 1..n];
    }
  }

  /** Comparison of the endpoints of one datagram is a total order. */
  lemma {:induction false} EndpointsAreOrdered(d: Datagram)
    requires d.WellFormed()
    ensures CompareEndpoints(d.source, d.destination) == -CompareEndpoints(d.destination, d.source)
    ensures CompareEndpoints(d.source, d.destination) == 0 <==> d.source == d.destination
  {
    var length := d.source.addressLength;
    CompareBytesAntisymmetric(d.source.address, d.destination.address, 0, length);
    if CompareEndpoints(d.source, d.destination) == 0 {
      CompareBytesZero(d.source.address, d.destination.address, 0, length);
      assert d.source.address == d.source.address[0..length] + d.source.address[length..];
      assert d.destination.address == d.destination.address[0..length] + d.destination.address[length..];
    }
    if d.source == d.destination {
      CompareBytesAntisymmetric(d.source.address, d.source.address, 0, length);
    }
  }

  /** The two datagrams go between the same endpoints, in either direction. */
  predicate SameFlow(d: Datagram, e: Datagram) {
    && d.ipVersion == e.ipVersion
    && (|| (d.source == e.source && d.destination == e.destination)
        || (d.source == e.destination && d.destination == e.source))
  }

  predicate SameDirection(d: Datagram, e: Datagram) {
    d.ipVersion == e.ipVersion && d.source == e.source && d.destination == e.destination
  }

  /** One key per flow; and between distinct endpoints the key's direction tells who is the sender. */
  lemma {:induction false} CanonicalKeys(d: Datagram, e: Datagram)
    requires d.WellFormed() && e.WellFormed()
    ensures d.Key() == e.Key() <==> SameFlow(d, e)
    ensures SameFlow(d, e) && d.source != d.destination ==> (d.Direction() == e.Direction() <==> SameDirection(d, e))
  {
    hide CompareEndpoints;
    EndpointsAreOrdered(d);
    EndpointsAreOrdered(e);
  }

  // ---------------------------------------------------------------------------------------------
  // What is learned

  /** The source connection ID of the last long header that has a nonempty one. */
  function LastScid(headers: seq<LongHeaderInfo>): (scid: ConnectionId)
    ensures scid.Cid? ==> scid.bytes != []
  {
    if headers == [] then UnknownCid
    else
      var later := LastScid(headers[1..]);
      if later.Cid? then later
      else if headers[0].scid.Cid? && headers[0].scid.bytes != [] then headers[0].scid
      else UnknownCid
  }

  lemma {:induction false} LearnAllIsLast(state: FlowState, direction: FlowDirection, headers: seq<LongHeaderInfo>)
    ensures SenderCid(LearnAll(state, direction, headers), direction)
            == if LastScid(headers).Cid? then LastScid(headers) else SenderCid(state, direction)
    ensures ReceiverCid(LearnAll(state, direction, headers), direction) == ReceiverCid(state, direction)
    decreases |headers|
  {
    if headers != [] {
      LearnAllIsLast(Learn(state, direction, headers[0]), direction, headers[1..]);
    }
  }

  /** What a datagram teaches about its sender. */
  function Taught(d: Datagram): ConnectionId {
    LastScid(Walk(d.payload, 0).headers)
  }

  /** The connection ID stored for the sender of `d` in its flow. */
  function StoredCid(table: FlowTable, d: Datagram): ConnectionId
    requires d.WellFormed()
  {
    if d.Key() in table then SenderCid(table[d.Key()], d.Direction()) else UnknownCid
  }

  lemma {:induction false} TeachingAnEntry(
    entry: Option<FlowState>, sender: FlowDirection, about: FlowDirection, payload: seq<byte>, options: QuicOptions)
    ensures var next := FlowStep(entry, sender, payload, options).0;
            var taught := LastScid(Walk(payload, 0).headers);
            var before := if entry.Some? then SenderCid(entry.value, about) else UnknownCid;
            && (entry.Some? ==> next.Some?)
            && (if next.Some? then SenderCid(next.value, about) else UnknownCid)
               == (if about == sender && taught.Cid? then taught else before)
  {
    hide Walk;
    hide JudgeTail;
    LearnAllIsLast(if entry.Some? then entry.value else NEW_FLOW, sender, Walk(payload, 0).headers);
  }

  /** One datagram changes what is stored for a sender exactly if it comes from that sender and teaches. */
  lemma {:induction false} StoredAfterStep(table: FlowTable, e: Datagram, d: Datagram, options: QuicOptions)
    requires d.WellFormed() && e.WellFormed()
    ensures StoredCid(TableStep(table, e, options).0, d)
            == if SameDirection(e, d) && Taught(e).Cid? then Taught(e) else StoredCid(table, d)
  {
    hide FlowStep;
    CanonicalKeys(d, e);
    CanonicalKeys(e, d);
    TeachingAnEntry(EntryOf(table, e.Key()), e.Direction(), d.Direction(), e.payload, options);
  }

  // ---------------------------------------------------------------------------------------------
  // Runs

  ghost predicate AllWellFormed(events: seq<Datagram>) {
    forall i :: 0 <= i < |events| ==> events[i].WellFormed()
  }

  function Run(table: FlowTable, events: seq<Datagram>, options: QuicOptions): FlowTable
    requires AllWellFormed(events)
  {
    if events == [] then table
    else TableStep(Run(table, events[..|events| - 1], options), events[|events| - 1], options).0
  }

  /** Event `j` is the last one from the sender of `d` to its receiver that taught a connection ID. */
  ghost predicate LastTeaching(events: seq<Datagram>, j: nat, d: Datagram)
    requires j < |events|
  {
    && SameDirection(events[j], d)
    && Taught(events[j]).Cid?
    && forall i :: j < i < |events| && SameDirection(events[i], d) ==> Taught(events[i]).UnknownCid?
  }

  ghost predicate Learnt(events: seq<Datagram>, d: Datagram, cid: ConnectionId) {
    exists j :: 0 <= j < |events| && LastTeaching(events, j, d) && Taught(events[j]) == cid
  }

  lemma {:induction false} LastTeachingSnoc(events: seq<Datagram>, j: nat, d: Datagram)
    requires j < |events| - 1
    ensures var n := |events| - 1;
            LastTeaching(events, j, d)
            <==> LastTeaching(events[..n], j, d) && !(SameDirection(events[n], d) && Taught(events[n]).Cid?)
  {
    hide Taught;
    hide SameDirection;
    var n := |events| - 1;
    assert forall i :: 0 <= i < n ==> events[..n][i] == events[i];
  }

  lemma {:induction false} LearntSnoc(events: seq<Datagram>, d: Datagram, cid: ConnectionId)
    requires events != []
    ensures var n := |events| - 1;
            Learnt(events, d, cid)
            <==> if SameDirection(events[n], d) && Taught(events[n]).Cid? then Taught(events[n]) == cid
                 else Learnt(events[..n], d, cid)
  {
    hide Taught;
    hide SameDirection;
    hide LastTeaching;
    var n := |events| - 1;
    forall j | 0 <= j < n
      ensures LastTeaching(events, j, d)
              <==> LastTeaching(events[..n], j, d) && !(SameDirection(events[n], d) && Taught(events[n]).Cid?)
      ensures events[..n][j] == events[j]
    {
      LastTeachingSnoc(events, j, d);
    }
    LastIsTeaching(events, d);
  }

  lemma {:induction false} LastIsTeaching(events: seq<Datagram>, d: Datagram)
    requires events != []
    ensures var n := |events| - 1;
            LastTeaching(events, n, d) <==> SameDirection(events[n], d) && Taught(events[n]).Cid?
  {
    hide Taught;
    hide SameDirection;
  }

  /** In every reachable table, the connection ID stored for an endpoint is the source connection ID of
      the latest long header with a nonempty one that it sent in the flow, also if that header came
      before a malformed tail; and it is unknown if there is none. */
  lemma {:induction false} LearningHistory(events: seq<Datagram>, d: Datagram, cid: ConnectionId, options: QuicOptions)
    requires AllWellFormed(events) && d.WellFormed() && cid.Cid?
    ensures StoredCid(Run(map[], events, options), d) == cid <==> Learnt(events, d, cid)
  {
    hide Taught;
    hide TableStep;
    hide Learnt;
    hide StoredCid;
    if events == [] {
      NothingLearnt(d, cid);
    } else {
      var n := |events| - 1;
      LearningHistory(events[..n], d, cid, options);
      LearntSnoc(events, d, cid);
      StoredAfterStep(Run(map[], events[..n], options), events[n], d, options);
    }
  }

  lemma {:induction false} NothingLearnt(d: Datagram, cid: ConnectionId)
    requires d.WellFormed() && cid.Cid?
    ensures StoredCid(map[], d) != cid && !Learnt([], d, cid)
  {
  }

  // ---------------------------------------------------------------------------------------------
  // Short headers

  /** The same flow, the other way. */
  function Backward(d: Datagram): Datagram {
    d.(source := d.destination, destination := d.source)
  }

  /** The connection ID that a short header of `d` has to carry, if one is known. */
  function ExpectedCid(table: FlowTable, d: Datagram): ConnectionId
    requires d.WellFormed()
  {
    if d.Key() in table then ReceiverCid(table[d.Key()], d.Direction()) else UnknownCid
  }

  /** Between distinct ends, that is the one stored for the receiver as a sender. */
  lemma {:induction false} ExpectedIsStored(table: FlowTable, d: Datagram)
    requires d.WellFormed() && d.source != d.destination
    ensures ExpectedCid(table, d) == StoredCid(table, Backward(d))
  {
    hide CanonicalFlow;
    CanonicalKeys(d, Backward(d));
  }

  /** An end that talks to itself never fills the other slot of its flow, so nothing is ever expected of it. */
  lemma {:induction false} SelfFlowExpectsNothing(events: seq<Datagram>, d: Datagram, options: QuicOptions)
    requires AllWellFormed(events) && d.WellFormed() && d.source == d.destination
    ensures ExpectedCid(Run(map[], events, options), d) == UnknownCid
  {
    hide TableStep;
    hide ExpectedCid;
    if events == [] {
      NothingExpected(d);
    } else {
      var n := |events| - 1;
      SelfFlowExpectsNothing(events[..n], d, options);
      ExpectedAfterStep(Run(map[], events[..n], options), events[n], d, options);
    }
  }

  lemma {:induction false} NothingExpected(d: Datagram)
    requires d.WellFormed()
    ensures ExpectedCid(map[], d) == UnknownCid
  {
  }

  lemma {:induction false} ExpectedAfterStep(table: FlowTable, e: Datagram, d: Datagram, options: QuicOptions)
    requires d.WellFormed() && e.WellFormed() && d.source == d.destination
    ensures ExpectedCid(TableStep(table, e, options).0, d) == ExpectedCid(table, d)
  {
    hide Walk;
    hide JudgeTail;
    hide LearnAll;
    CanonicalKeys(d, e);
    EndpointsAreOrdered(d);
    var entry := EntryOf(table, e.Key());
    LearnAllIsLast(if entry.Some? then entry.value else NEW_FLOW, e.Direction(), Walk(e.payload, 0).headers);
  }

  /** The datagram carries a connection ID right after the first byte behind its long headers. */
  predicate Carries(d: Datagram, cid: ConnectionId)
    requires cid.Cid?
  {
    var at := Walk(d.payload, 0).end + 1;
    at + |cid.bytes| <= |d.payload| && d.payload[at..at + |cid.bytes|] == cid.bytes
  }

  /** What the bytes from `end` on are if they are cut, as a matched short header, `kept` bytes into the
      payload: they carry the expected connection ID, if one is known, right after the first byte of the
      short header; only without one, and only where the options allow it, are they matched unseen. The cut
      keeps everything before, the first byte and the connection ID, and no more than the setting asks. */
  predicate MatchedTail(payload: seq<byte>, end: nat, kept: nat, expected: ConnectionId, options: QuicOptions) {
    && end < |payload| && IsShortHeaderCompatible(payload[end])
    && end < kept <= |payload|
    && (expected.Cid? ==>
          && end + 1 + |expected.bytes| <= kept
          && payload[end + 1..end + 1 + |expected.bytes|] == expected.bytes)
    && (expected.UnknownCid? ==> !options.requireDcidMatch && options.allowShortHeaderWithoutKnownDcid)
    && kept == end + Min(|payload| - end,
                         Max(options.shortHeaderKeepPacketBytes, if expected.Cid? then 1 + |expected.bytes| else 1))
  }

  lemma {:induction false} JudgedMatched(
    payload: seq<byte>, end: nat, sawLongHeader: bool, expected: ConnectionId, options: QuicOptions)
    requires end <= |payload|
    requires JudgeTail(payload, end, sawLongHeader, expected, options).disposition == ShortHeaderMatched
    ensures MatchedTail(payload, end, JudgeTail(payload, end, sawLongHeader, expected, options).keptPayload, expected,
                        options)
  {
  }

  lemma {:induction false} FlowMatched(
    entry: Option<FlowState>, direction: FlowDirection, payload: seq<byte>, options: QuicOptions)
    requires FlowStep(entry, direction, payload, options).1.disposition == ShortHeaderMatched
    ensures !Walk(payload, 0).malformed
    ensures MatchedTail(payload, Walk(payload, 0).end, FlowStep(entry, direction, payload, options).1.keptPayload,
                        if entry.Some? then ReceiverCid(entry.value, direction) else UnknownCid, options)
  {
    hide Walk;
    hide JudgeTail;
    hide LearnAll;
    hide ReceiverCid;
    hide MatchedTail;
    var walked := Walk(payload, 0);
    WalkEnds(payload, 0);
    KeepsReceiver(entry, direction, walked.headers);
    var expected := if entry.Some? then ReceiverCid(entry.value, direction) else UnknownCid;
    JudgedMatched(payload, walked.end, walked.headers != [], expected, options);
  }

  /** What a datagram teaches leaves what is expected of its receiver alone. */
  lemma {:induction false} KeepsReceiver(
    entry: Option<FlowState>, direction: FlowDirection, headers: seq<LongHeaderInfo>)
    ensures var learned := Learned(entry, direction, headers);
            (if learned.Some? then ReceiverCid(learned.value, direction) else UnknownCid)
            == if entry.Some? then ReceiverCid(entry.value, direction) else UnknownCid
  {
    hide LearnAll;
    LearnAllIsLast(if entry.Some? then entry.value else NEW_FLOW, direction, headers);
  }

  /** What a matched short header proves about the datagram: no long header is malformed, and what follows
      them is what `MatchedTail` says, for the connection ID expected by the receiver. */
  lemma {:induction false} MatchedShortHeader(table: FlowTable, d: Datagram, options: QuicOptions)
    requires d.WellFormed()
    requires TableStep(table, d, options).1.disposition == ShortHeaderMatched
    ensures !Walk(d.payload, 0).malformed
    ensures MatchedTail(d.payload, Walk(d.payload, 0).end, TableStep(table, d, options).1.keptPayload,
                        ExpectedCid(table, d), options)
  {
    hide Walk;
    hide CanonicalFlow;
    hide FlowStep;
    hide MatchedTail;
    FlowMatched(EntryOf(table, d.Key()), d.Direction(), d.payload, options);
  }

  /** With `requireDcidMatch`, a short header is matched only between distinct ends, and carries a connection
      ID that its receiver announced as its own in the latest long header it sent with one. */
  lemma {:induction false} MatchNeedsAnnouncement(events: seq<Datagram>, i: nat, options: QuicOptions)
    requires i < |events| && AllWellFormed(events) && options.requireDcidMatch
    requires TableStep(Run(map[], events[..i], options), events[i], options).1.disposition == ShortHeaderMatched
    ensures events[i].source != events[i].destination
    ensures exists cid: ConnectionId ::
              cid.Cid? && Learnt(events[..i], Backward(events[i]), cid) && Carries(events[i], cid)
  {
    hide Walk;
    hide TableStep;
    hide StoredCid;
    hide ExpectedCid;
    hide Learnt;
    var table, d := Run(map[], events[..i], options), events[i];
    MatchedShortHeader(table, d, options);
    if d.source == d.destination {
      SelfFlowExpectsNothing(events[..i], d, options);
    }
    ExpectedIsStored(table, d);
    LearningHistory(events[..i], Backward(d), StoredCid(table, Backward(d)), options);
  }

  /** Seeing a datagram twice in a row teaches nothing new and gets the same verdict. */
  lemma {:induction false} StepTwice(table: FlowTable, d: Datagram, options: QuicOptions)
    requires d.WellFormed()
    ensures var (next, verdict) := TableStep(table, d, options);
            TableStep(next, d, options) == (next, verdict)
  {
    hide CanonicalFlow;
    hide FlowStep;
    hide StoreEntry;
    hide EntryOf;
    var entry := EntryOf(table, d.Key());
    FlowTwice(entry, d.Direction(), d.payload, options);
    var learned := FlowStep(entry, d.Direction(), d.payload, options).0;
    StoredOnce(table, d.Key(), learned);
  }

  lemma {:induction false} StoredOnce(table: FlowTable, key: FlowKey, learned: Option<FlowState>)
    requires EntryOf(table, key).Some? ==> learned.Some?
    ensures EntryOf(StoreEntry(table, key, learned), key) == learned
    ensures StoreEntry(StoreEntry(table, key, learned), key, learned) == StoreEntry(table, key, learned)
  {
    StoredTwice(table, key, learned, learned);
  }

  lemma {:induction false} FlowTwice(
    entry: Option<FlowState>, direction: FlowDirection, payload: seq<byte>, options: QuicOptions)
    ensures var (learned, verdict) := FlowStep(entry, direction, payload, options);
            && FlowStep(learned, direction, payload, options) == (learned, verdict)
            && (entry.Some? ==> learned.Some?)
  {
    hide Walk;
    hide JudgeTail;
    hide LearnAll;
    WalkEnds(payload, 0);
    LearnTwice(if entry.Some? then entry.value else NEW_FLOW, direction, Walk(payload, 0).headers);
  }

  lemma {:induction false} LearnTwice(state: FlowState, direction: FlowDirection, headers: seq<LongHeaderInfo>)
    ensures LearnAll(LearnAll(state, direction, headers), direction, headers) == LearnAll(state, direction, headers)
  {
    hide LearnAll;
    LearnAllIsLast(state, direction, headers);
    LearnAllIsLast(LearnAll(state, direction, headers), direction, headers);
  }

  // ---------------------------------------------------------------------------------------------
  // Locality and keep settings

  /** A datagram is judged by the entry of its own flow alone, and changes no other entry. */
  lemma {:induction false} StepIsLocal(a: FlowTable, b: FlowTable, d: Datagram, key: FlowKey, options: QuicOptions)
    requires d.WellFormed()
    ensures d.Key() == key && EntryOf(a, key) == EntryOf(b, key) ==>
              && TableStep(a, d, options).1 == TableStep(b, d, options).1
              && EntryOf(TableStep(a, d, options).0, key) == EntryOf(TableStep(b, d, options).0, key)
    ensures d.Key() != key ==> EntryOf(TableStep(a, d, options).0, key) == EntryOf(a, key)
  {
    hide FlowStep;
  }

  /** The options differ at most in how many bytes a short header keeps. */
  predicate KeepsMore(more: QuicOptions, less: QuicOptions) {
    && less == more.(shortHeaderKeepPacketBytes := less.shortHeaderKeepPacketBytes)
    && less.shortHeaderKeepPacketBytes <= more.shortHeaderKeepPacketBytes
  }

  /** Keep settings never reach the table or the disposition, and keeping more never moves a cut forward. */
  lemma {:induction false} KeepMonotone(table: FlowTable, d: Datagram, more: QuicOptions, less: QuicOptions)
    requires d.WellFormed() && KeepsMore(more, less)
    ensures TableStep(table, d, more).0 == TableStep(table, d, less).0
    ensures TableStep(table, d, more).1.disposition == TableStep(table, d, less).1.disposition
    ensures TableStep(table, d, less).1.keptPayload <= TableStep(table, d, more).1.keptPayload
  {
    hide Walk;
    WalkEnds(d.payload, 0);
  }

  // ---------------------------------------------------------------------------------------------
  // Packets

  /** A packet that is no readable, nonempty UDP datagram on a configured port changes nothing; and the learner proposes
      a length only with a match. */
  lemma {:induction false} PacketAnswer(
    table: FlowTable, packet: seq<byte>, decoded: PacketDecodeResult, options: QuicOptions)
    requires PaddedAddresses(decoded)
    ensures var (next, answer) := PacketStep(table, packet, decoded, options);
            var end := decoded.transportPayloadOffset + decoded.transportPayloadLength;
            var listens := options.enabled && (decoded.srcPort in options.ports || decoded.dstPort in options.ports);
            && (!listens || decoded.transportProtocol != Udp || decoded.transportPayloadLength == 0 ==>
                  next == table && answer == QuicConstrictResult(NotApplicable, 0))
            && (listens && decoded.transportProtocol == Udp && decoded.transportPayloadLength > 0 && end > |packet| ==>
                  next == table && answer == QuicConstrictResult(MalformedFallback, 0))
            && (answer.disposition != ShortHeaderMatched ==> answer.outputLen == 0)
  {
    hide TableStep;
    hide PaddedAddresses;
    hide PacketStep;
    hide DatagramOf;
    hide Datagram.WellFormed;
    PacketIsStep(table, packet, decoded, options);
  }
}
