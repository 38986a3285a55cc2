/** The per-direction TLS record tracker (src/policy/TlsConstrictor.cpp).

    `TlsConstrictor.Evaluate` is the tracker: it updates a table of directions through a loop over
    the records of one segment. The functions above it say what one segment does to one direction
    (`DirectionStep`) and to the table (`TableStep`), in terms of the list of record headers that
    the segment holds (`RecordsFrom`). Record layer: section 5.1 of RFC 8446. */
module Tls {
  import opened Bytes
  import opened Config
  import opened PacketDecode

  const CHANGE_CIPHER_SPEC: byte := 0x14
  const ALERT: byte := 0x15
  const HANDSHAKE: byte := 0x16
  const APPLICATION_DATA: byte := 0x17
  const RECORD_HEADER_SIZE: nat := 5

  datatype Disposition = NoRecord | Malformed | NoApplicationData | AppDataPrefix | UncertainFallback

  datatype TlsConstrictResult = TlsConstrictResult(disposition: Disposition, outputLen: u32)

  datatype DirectionKey = DirectionKey(srcIp: Address, dstIp: Address, addressLength: byte, srcPort: u16, dstPort: u16)
  {
    function Reverse(): DirectionKey {
      DirectionKey(dstIp, srcIp, addressLength, dstPort, srcPort)
    }
  }

  datatype DirectionState = DirectionState(
    confirmedTls: bool,
    hasSeenApplicationData: bool,
    synchronized: bool,
    expectedTcpSeq: u32,
    hasActiveRecord: bool,
    activeRecordContentType: byte,
    activeRecordRemainingBytes: u32,
    activeRecordConstrictible: bool)
  {
    function ClearActiveRecord(): DirectionState {
      this.(hasActiveRecord := false,
            activeRecordConstrictible := false,
            activeRecordContentType := 0,
            activeRecordRemainingBytes := 0)
    }
  }

  /** The entry that a lookup of an absent key creates. */
  const FRESH := DirectionState(false, false, false, 0, false, 0, 0, false)

  type Table = map<DirectionKey, DirectionState>

  function DirectionOf(table: Table, key: DirectionKey): DirectionState {
    if key in table then table[key] else FRESH
  }

  // ---------------------------------------------------------------------------------------------
  // Record headers

  predicate IsTlsContentType(contentType: byte) {
    || contentType == CHANGE_CIPHER_SPEC
    || contentType == ALERT
    || contentType == HANDSHAKE
    || contentType == APPLICATION_DATA
  }

  /** A record header found in a segment: where it starts, its content type and the length it announces. */
  datatype Header = Header(offset: nat, contentType: byte, length: u16)
  {
    /** The offset just after the record, which may lie beyond the segment. */
    function End(): nat {
      offset + RECORD_HEADER_SIZE + length
    }
  }

  function ReadTlsRecordHeader(payload: seq<byte>, offset: nat): Option<Header> {
    if !HasBytes(payload, offset, RECORD_HEADER_SIZE) then None
    else if !IsTlsContentType(payload[offset]) || payload[offset + 1] != 0x03 then None
    else Some(Header(offset, payload[offset], ReadBe16(payload, offset + 3)))
  }

  /** The record headers that follow one another from some offset of a segment; `bad` says that the
      bytes after the last of them are not a record header. */
  datatype Records = Records(headers: seq<Header>, bad: bool)

  function RecordsFrom(payload: seq<byte>, offset: nat): Records
    decreases |payload| - offset
  {
    if offset >= |payload| then Records([], false)
    else
      match ReadTlsRecordHeader(payload, offset)
      case None => Records([], true)
      case Some(header) =>
        var rest := RecordsFrom(payload, header.End());
        Records([header] + rest.headers, rest.bad)
  }

  predicate HasType(headers: seq<Header>, contentType: byte) {
    exists i :: 0 <= i < |headers| && headers[i].contentType == contentType
  }

  /** The last application data record that starts in the segment. */
  function LastAppData(headers: seq<Header>): (last: Option<Header>)
    ensures last.Some? ==> last.value in headers && last.value.contentType == APPLICATION_DATA
  {
    if headers == [] then None
    else
      var later := LastAppData(headers[1..]);
      if later.Some? then later
      else if headers[0].contentType == APPLICATION_DATA then Some(headers[0])
      else None
  }

  lemma {:induction false} HasTypeCons(header: Header, rest: seq<Header>, contentType: byte)
    ensures HasType([header] + rest, contentType) <==> header.contentType == contentType || HasType(rest, contentType)
  {
    var all := [header] + rest;
    assert all[0] == header;
    if HasType(rest, contentType) {
      var i :| 0 <= i < |rest| && rest[i].contentType == contentType;
      assert all[i + 1] == rest[i];
    }
  }

  // ---------------------------------------------------------------------------------------------
  // One segment, one direction

  /** The cut that a segment ends with: how much of the payload is kept, if a cut is wanted. */
  type Candidate = Option<nat>

  /** The cut after the headers seen so far: everything before the last application data record plus
      the configured number of its bytes, as far as they are in the segment. */
  function CandidateCut(payloadSize: nat, headers: seq<Header>, options: TlsOptions): Candidate {
    match LastAppData(headers)
    case None => None
    case Some(last) => CutAfterHeader(None, payloadSize, last, options)
  }

  /** One more record header moves the cut if it is application data. */
  function CutAfterHeader(cut: Candidate, payloadSize: nat, header: Header, options: TlsOptions): Candidate {
    if header.contentType == APPLICATION_DATA
    then
      var available := Max(0, Min(header.End(), payloadSize) - header.offset);
      Some(header.offset + Min(options.appDataKeepRecordBytes, available))
    else cut
  }

  datatype Verdict = Verdict(disposition: Disposition, keptPayload: nat)

  function Decide(payload: seq<byte>, candidate: Candidate): Verdict {
    if candidate.Some? && candidate.value < |payload| then Verdict(AppDataPrefix, candidate.value)
    else Verdict(NoApplicationData, |payload|)
  }

  /** What a data segment does: the entry it leaves (`None` erases it), whether it carries an accepted
      Handshake record header, and its verdict. */
  datatype Outcome = Outcome(next: Option<DirectionState>, handshake: bool, verdict: Verdict)

  /** A segment that does not continue where the last one ended loses synchronization. */
  function Resynchronize(state: DirectionState, seqNumber: u32): DirectionState {
    if state.synchronized && seqNumber != state.expectedTcpSeq
    then state.ClearActiveRecord().(synchronized := false, expectedTcpSeq := 0)
    else state
  }

  function AdvanceTcpSeq(seqNumber: u32, payloadSize: nat): u32 {
    ToU32(seqNumber + payloadSize)
  }

  /** A state after a nonempty list of accepted headers; a last record that does not fit in the
      segment becomes the active record. */
  function Absorb(state: DirectionState, payloadSize: nat, headers: seq<Header>): DirectionState {
    var flags := state.(
      synchronized := true,
      confirmedTls := state.confirmedTls || HasType(headers, HANDSHAKE),
      hasSeenApplicationData := state.hasSeenApplicationData || HasType(headers, APPLICATION_DATA));
    if headers != [] && payloadSize < headers[|headers| - 1].End() then
      var last := headers[|headers| - 1];
      flags.(hasActiveRecord := true,
             activeRecordContentType := last.contentType,
             activeRecordRemainingBytes := ToU32(last.End() - payloadSize),
             activeRecordConstrictible := last.contentType == APPLICATION_DATA)
    else
      flags
  }

  /** A synchronized or confirmed state after one accepted header. */
  function WithHeader(state: DirectionState, payloadSize: nat, header: Header): DirectionState {
    var flags := state.(
      synchronized := true,
      confirmedTls := state.confirmedTls || header.contentType == HANDSHAKE,
      hasSeenApplicationData := state.hasSeenApplicationData || header.contentType == APPLICATION_DATA);
    if payloadSize < header.End() then
      flags.(hasActiveRecord := true,
             activeRecordContentType := header.contentType,
             activeRecordRemainingBytes := ToU32(header.End() - payloadSize),
             activeRecordConstrictible := header.contentType == APPLICATION_DATA)
    else
      flags
  }

  /** Unsynchronized directions accept only a record header, and before confirmation only a Handshake. */
  predicate Accepts(state: DirectionState, headers: seq<Header>) {
    state.synchronized || (headers != [] && (state.confirmedTls || headers[0].contentType == HANDSHAKE))
  }

  /** The records of a segment from `start` on, for a direction without active record. */
  function RecordsStep(
    state: DirectionState, seqNumber: u32, payload: seq<byte>, start: nat, options: TlsOptions): Outcome {
    var records := RecordsFrom(payload, start);
    if !Accepts(state, records.headers) then
      Outcome(if state.confirmedTls then Some(state) else None, false, Verdict(NoRecord, |payload|))
    else
      var next := Absorb(state, |payload|, records.headers).(expectedTcpSeq := AdvanceTcpSeq(seqNumber, |payload|));
      Outcome(
        Some(next),
        HasType(records.headers, HANDSHAKE),
        if records.bad then Verdict(Malformed, |payload|)
        else Decide(payload, CandidateCut(|payload|, records.headers, options)))
  }

  /** One nonempty segment in one direction. */
  function DirectionStep(previous: DirectionState, seqNumber: u32, payload: seq<byte>, options: TlsOptions): Outcome
    requires payload != []
  {
    var state := Resynchronize(previous, seqNumber);
    var remaining: int := state.activeRecordRemainingBytes;
    var expected := AdvanceTcpSeq(seqNumber, |payload|);
    if !state.hasActiveRecord then
      RecordsStep(state, seqNumber, payload, 0, options)
    else if remaining > |payload| then
      Outcome(Some(state.(activeRecordRemainingBytes := remaining - |payload|, expectedTcpSeq := expected)),
              false, Verdict(NoApplicationData, |payload|))
    else if remaining == |payload| then
      Outcome(Some(state.ClearActiveRecord().(expectedTcpSeq := expected)),
              false,
              Decide(payload,
                     if state.activeRecordConstrictible then Some(Min(options.appDataContinuationKeepBytes, |payload|))
                     else None))
    else if state.activeRecordConstrictible then
      Outcome(if state.confirmedTls
              then Some(FRESH.(confirmedTls := true, hasSeenApplicationData := state.hasSeenApplicationData))
              else None,
              false, Verdict(NoApplicationData, |payload|))
    else
      RecordsStep(state.ClearActiveRecord(), seqNumber, payload, remaining, options)
  }

  // ---------------------------------------------------------------------------------------------
  // One segment, the whole table

  /** A TCP segment as the tracker sees it. */
  datatype Segment = Segment(key: DirectionKey, seqNumber: u32, flags: byte, payload: seq<byte>)
  {
    predicate SynOrRst() {
      BitSet(flags, 0x02) || BitSet(flags, 0x04)
    }

    predicate InFlow(direction: DirectionKey) {
      key == direction || key == direction.Reverse()
    }
  }

  function Confirm(table: Table, key: DirectionKey): Table {
    table[key := DirectionOf(table, key).(confirmedTls := true)]
  }

  function AfterFlags(table: Table, segment: Segment): Table {
    if segment.SynOrRst() then table - {segment.key, segment.key.Reverse()} else table
  }

  /** A direction's new entry, with its reverse confirmed by a Handshake. */
  function Store(table: Table, key: DirectionKey, outcome: Outcome): Table {
    var told := if outcome.handshake then Confirm(table, key.Reverse()) else table;
    match outcome.next
    case Some(state) => told[key := state]
    case None => told - {key}
  }

  function TableStep(table: Table, segment: Segment, options: TlsOptions): (Table, Verdict) {
    var cleared := AfterFlags(table, segment);
    if segment.payload == [] then
      (cleared, Verdict(NoApplicationData, 0))
    else
      var outcome := DirectionStep(DirectionOf(cleared, segment.key), segment.seqNumber, segment.payload, options);
      (Store(cleared, segment.key, outcome), outcome.verdict)
  }

  // ---------------------------------------------------------------------------------------------
  // The state invariant

  /** What every stored entry satisfies. */
  ghost predicate StateInvariant(state: DirectionState) {
    && state.confirmedTls
    && (!state.synchronized ==> state.expectedTcpSeq == 0)
    && (state.hasActiveRecord ==>
          && state.synchronized
          && 1 <= state.activeRecordRemainingBytes <= 0xFFFF
          && IsTlsContentType(state.activeRecordContentType)
          && (state.activeRecordConstrictible <==> state.activeRecordContentType == APPLICATION_DATA))
    && (!state.hasActiveRecord ==>
          state.activeRecordContentType == 0 && state.activeRecordRemainingBytes == 0
          && !state.activeRecordConstrictible)
  }

  /** Entries satisfy the state invariant, and a direction is stored exactly when its reverse is. */
  ghost predicate TableInvariant(table: Table) {
    && (forall key :: key in table ==> StateInvariant(table[key]))
    && (forall key: DirectionKey {:trigger key.Reverse()} :: key in table ==> key.Reverse() in table)
  }

  // ---------------------------------------------------------------------------------------------
  // The tracker

  function MakeDirectionKey(decoded: PacketDecodeResult): DirectionKey {
    DirectionKey(decoded.srcAddress, decoded.dstAddress, decoded.addressLength, decoded.srcPort, decoded.dstPort)
  }

  /** The segment that a decoded packet carries. */
  function SegmentOf(packet: seq<byte>, decoded: PacketDecodeResult): Segment
    requires HasBytes(packet, decoded.transportPayloadOffset, decoded.transportPayloadLength)
  {
    Segment(MakeDirectionKey(decoded), decoded.tcpSeq, decoded.tcpFlags,
            packet[decoded.transportPayloadOffset..decoded.transportPayloadOffset + decoded.transportPayloadLength])
  }

  /** What the tracker does with a packet, including packets it cannot look into. */
  function PacketStep(table: Table, packet: seq<byte>, decoded: PacketDecodeResult, options: TlsOptions)
    : (Table, TlsConstrictResult)
  {
    if decoded.transportProtocol != Tcp then
      (table, TlsConstrictResult(Malformed, ToU32(|packet|)))
    else if decoded.transportPayloadLength == 0 then
      (AfterFlags(table, Segment(MakeDirectionKey(decoded), decoded.tcpSeq, decoded.tcpFlags, [])),
       TlsConstrictResult(NoApplicationData, ToU32(|packet|)))
    else if !HasBytes(packet, decoded.transportPayloadOffset, decoded.transportPayloadLength) then
      (AfterFlags(table, Segment(MakeDirectionKey(decoded), decoded.tcpSeq, decoded.tcpFlags, [])),
       TlsConstrictResult(Malformed, ToU32(|packet|)))
    else
      var (next, verdict) := TableStep(table, SegmentOf(packet, decoded), options);
      (next,
       TlsConstrictResult(
         verdict.disposition,
         if verdict.disposition == AppDataPrefix
         then ToU32(decoded.transportPayloadOffset + verdict.keptPayload)
         else ToU32(|packet|)))
  }

  class TlsConstrictor {
    var directions: Table

    ghost predicate Valid()
      reads this
    {
      TableInvariant(directions)
    }

    constructor ()
      ensures Valid() && directions == map[]
    {
      directions := map[];
    }

    /** The part of the loop body that takes in one record header: it updates the entry and, for
        application data, moves the cut. The entry is written back before the reverse entry is touched,
        because the two may be one. */
    method AcceptRecord(
      key: DirectionKey, previous: DirectionState, payloadSize: nat, header: Header, options: TlsOptions,
      cut: Candidate)
      returns (state: DirectionState, candidate: Candidate)
      requires header.offset + RECORD_HEADER_SIZE <= payloadSize
      modifies this
      ensures state == WithHeader(previous, payloadSize, header)
      ensures directions ==
              if header.contentType == HANDSHAKE
              then Confirm(old(directions)[key := previous.(synchronized := true, confirmedTls := true)], key.Reverse())
              else old(directions)
      ensures candidate == CutAfterHeader(cut, payloadSize, header, options)
    {
      candidate := cut;
      state := previous.(synchronized := true);
      if header.contentType == HANDSHAKE {
        state := state.(confirmedTls := true);
        directions := directions[key := state];
        directions := Confirm(directions, key.Reverse());
        state := directions[key];
      }
      var recordTotalSize := RECORD_HEADER_SIZE + header.length;
      var remainingPayload := payloadSize - header.offset;
      var isAppData := header.contentType == APPLICATION_DATA;
      if recordTotalSize > remainingPayload {
        if isAppData {
          state := state.(hasSeenApplicationData := true);
          candidate := Some(header.offset + Min(options.appDataKeepRecordBytes, remainingPayload));
        }
        state := state.(hasActiveRecord := true);
        state := state.(activeRecordContentType := header.contentType);
        state := state.(activeRecordRemainingBytes := ToU32(recordTotalSize - remainingPayload));
        state := state.(activeRecordConstrictible := isAppData);
        return;
      }
      if isAppData {
        state := state.(hasSeenApplicationData := true);
        candidate := Some(header.offset + Min(options.appDataKeepRecordBytes, recordTotalSize));
      }
    }

    /** The loop over the records of a segment, entered at `start` once an earlier active record has
        been left behind; in the source it is part of `Evaluate`. `initial` is the entry of `key`,
        which the source updates through a reference into the table and which is written back here
        when the loop ends. */
    method ScanRecords(key: DirectionKey, initial: DirectionState, payload: seq<byte>, start: nat, options: TlsOptions)
      returns (rejected: bool, uncertain: bool, candidate: Candidate)
      requires !initial.hasActiveRecord && start < |payload|
      modifies this
      ensures rejected <==> !Accepts(initial, RecordsFrom(payload, start).headers)
      ensures rejected ==>
                directions == if initial.confirmedTls then old(directions)[key := initial] else old(directions) - {key}
      ensures !rejected ==>
                && directions
                   == AfterRecords(old(directions), key, initial, |payload|, RecordsFrom(payload, start).headers)
                && uncertain == RecordsFrom(payload, start).bad
                && candidate == CandidateCut(|payload|, RecordsFrom(payload, start).headers, options)
    {
      hide RecordsFrom;
      hide ReadTlsRecordHeader;
      hide Accepts;
      hide Finish;
      hide AfterRecords;
      hide CandidateCut;
      hide CutAfterHeader;
      rejected, uncertain, candidate := false, false, None;
      FinishStarts(directions, key, initial, payload, start, options);
      AcceptsFirst(initial, payload, start);
      var state := initial;
      var confirmedTls := state.confirmedTls;
      var payloadOffset := start;
      ghost var goal := Finish(directions, key, state, payload, start, None, options);
      while payloadOffset < |payload|
        invariant !rejected && !uncertain
        invariant payloadOffset == start ==> state == initial && directions == old(directions)
        invariant payloadOffset != start ==> state.synchronized && Accepts(initial, RecordsFrom(payload, start).headers)
        invariant Finish(directions, key, state, payload, payloadOffset, candidate, options) == goal
        decreases |payload| - payloadOffset
      {
        var header := ReadTlsRecordHeader(payload, payloadOffset);
        HeaderIsInside(payload, payloadOffset);
        if header == None {
          if !state.synchronized {
            directions := if confirmedTls then directions[key := state] else directions - {key};
            rejected := true;
            return;
          }
          FinishEnds(directions, key, state, payload, payloadOffset, candidate, options);
          uncertain := true;
          break;
        }
        if !state.synchronized && header.value.contentType != HANDSHAKE && !confirmedTls {
          directions := directions - {key};
          rejected := true;
          return;
        }
        FinishStep(directions, key, state, payload, payloadOffset, candidate, options);
        state, candidate := AcceptRecord(key, state, |payload|, header.value, options, candidate);
        payloadOffset := header.value.End();
      }
      FinishEnds(directions, key, state, payload, payloadOffset, candidate, options);
      directions := directions[key := state];
    }

    /** The continuation of an active record at the start of a segment. */
    static method ContinueActiveRecord(entry: DirectionState, payloadSize: nat, options: TlsOptions)
      returns (state: DirectionState, payloadOffset: nat, candidate: Candidate, resetDirection: bool,
               keptMiddleContinuation: bool)
      ensures !entry.hasActiveRecord ==>
                state == entry && payloadOffset == 0 && candidate == None && !resetDirection && !keptMiddleContinuation
      ensures var remaining: int := entry.activeRecordRemainingBytes;
              entry.hasActiveRecord ==>
                && payloadOffset == Min(remaining, payloadSize)
                && state
                   == (if remaining > payloadSize then entry.(activeRecordRemainingBytes := remaining - payloadSize)
                             else entry.ClearActiveRecord())
                && candidate == (if remaining == payloadSize && entry.activeRecordConstrictible
                                 then Some(Min(options.appDataContinuationKeepBytes, payloadSize)) else None)
                && (resetDirection <==> remaining < payloadSize && entry.activeRecordConstrictible)
                && (keptMiddleContinuation <==> remaining > payloadSize && entry.activeRecordConstrictible)
    {
      state, payloadOffset, candidate, resetDirection, keptMiddleContinuation := entry, 0, None, false, false;
      if state.hasActiveRecord {
        var remainingRecordBytes: int := state.activeRecordRemainingBytes;
        if remainingRecordBytes > payloadSize {
          if state.activeRecordConstrictible {
            keptMiddleContinuation := true;
          }
          state := state.(activeRecordRemainingBytes := remainingRecordBytes - payloadSize);
          payloadOffset := payloadSize;
        } else if remainingRecordBytes == payloadSize {
          if state.activeRecordConstrictible {
            candidate := Some(Min(options.appDataContinuationKeepBytes, payloadSize));
          }
          payloadOffset := payloadSize;
          state := state.ClearActiveRecord();
        } else {
          payloadOffset := remainingRecordBytes;
          if state.activeRecordConstrictible {
            state := state.ClearActiveRecord();
            resetDirection := true;
          } else {
            state := state.ClearActiveRecord();
          }
        }
      }
    }

    /** What `Evaluate` does from the lookup of the entry on: the verdict on one nonempty segment. */
    method EvaluatePayload(key: DirectionKey, tcpSeq: u32, payload: seq<byte>, options: TlsOptions)
      returns (verdict: Verdict)
      requires payload != []
      requires DirectionOf(directions, key) == FRESH || StateInvariant(DirectionOf(directions, key))
      modifies this
      ensures var outcome := DirectionStep(DirectionOf(old(directions), key), tcpSeq, payload, options);
              directions == Store(old(directions), key, outcome) && verdict == outcome.verdict
    {
      hide RecordsFrom;
      hide HasType;
      ghost var table := directions;
      var state := DirectionOf(directions, key);
      ghost var outcome := DirectionStep(state, tcpSeq, payload, options);

      if state.synchronized && tcpSeq != state.expectedTcpSeq {
        state := state.ClearActiveRecord();
        state := state.(synchronized := false);
        state := state.(expectedTcpSeq := 0);
      }
      var candidatePayloadSize := |payload|;
      var hasCandidate := false;
      var uncertain := false;
      var payloadOffset, tailCandidate, resetDirection, keptMiddleContinuation;
      state, payloadOffset, tailCandidate, resetDirection, keptMiddleContinuation :=
        ContinueActiveRecord(state, |payload|, options);
      if tailCandidate.Some? {
        candidatePayloadSize := tailCandidate.value;
        hasCandidate := true;
      }

      if !resetDirection && payloadOffset < |payload| {
        assert outcome == RecordsStep(state, tcpSeq, payload, payloadOffset, options);
        var rejected, candidate;
        rejected, uncertain, candidate := ScanRecords(key, state, payload, payloadOffset, options);
        if rejected {
          return Verdict(NoRecord, |payload|);
        }
        if candidate.Some? {
          candidatePayloadSize := candidate.value;
          hasCandidate := true;
        }
        state := directions[key];
        Overwrites(Told(table, key, RecordsFrom(payload, payloadOffset).headers), key, state,
                   state.(expectedTcpSeq := AdvanceTcpSeq(tcpSeq, |payload|)));
      }

      state := state.(expectedTcpSeq := AdvanceTcpSeq(tcpSeq, |payload|));
      directions := directions[key := state];
      assert !resetDirection ==> outcome.next == Some(state) && directions == Store(table, key, outcome);

      if resetDirection {
        var wasConfirmedTls := state.confirmedTls;
        var hadSeenApplicationData := state.hasSeenApplicationData;
        directions := directions - {key};
        Overwrites(table, key, state, FRESH);
        if wasConfirmedTls {
          directions := Confirm(directions, key);
          ghost var confirmed := directions[key];
          Overwrites(table, key, confirmed, confirmed.(hasSeenApplicationData := hadSeenApplicationData));
          directions := directions[key := directions[key].(hasSeenApplicationData := hadSeenApplicationData)];
        }
        return Verdict(NoApplicationData, |payload|);
      }
      if uncertain {
        return Verdict(Malformed, |payload|);
      }
      if keptMiddleContinuation {
        return Verdict(NoApplicationData, |payload|);
      }
      if !state.synchronized || !hasCandidate || candidatePayloadSize >= |payload| {
        return Verdict(if state.synchronized then NoApplicationData else NoRecord, |payload|);
      }
      return Verdict(AppDataPrefix, candidatePayloadSize);
    }

    method Evaluate(packet: seq<byte>, decoded: PacketDecodeResult, options: TlsOptions)
      returns (result: TlsConstrictResult)
      requires Valid()
      modifies this
      ensures Valid()
      ensures (directions, result) == PacketStep(old(directions), packet, decoded, options)
    {
      hide DirectionStep;
      hide Store;
      hide TableInvariant;
      hide StateInvariant;
      result := TlsConstrictResult(NoRecord, ToU32(|packet|));
      if decoded.transportProtocol != Tcp {
        result := result.(disposition := Malformed);
        return;
      }
      var key := MakeDirectionKey(decoded);
      var reverseKey := key.Reverse();
      if BitSet(decoded.tcpFlags, 0x02) || BitSet(decoded.tcpFlags, 0x04) {
        directions := directions - {key};
        directions := directions - {reverseKey};
      }
      ghost var table := old(directions);
      PacketStepKeepsInvariant(table, packet, decoded, options);
      assert table - {key} - {reverseKey} == table - {key, reverseKey};
      ghost var cleared := AfterFlags(table, Segment(key, decoded.tcpSeq, decoded.tcpFlags, []));
      assert directions == cleared;
      if decoded.transportPayloadLength == 0 {
        result := result.(disposition := NoApplicationData);
        return;
      }
      if !HasBytes(packet, decoded.transportPayloadOffset, decoded.transportPayloadLength) {
        result := result.(disposition := Malformed);
        return;
      }
      ghost var segment := SegmentOf(packet, decoded);
      assert AfterFlags(table, segment) == cleared;
      ClearedEntryInvariant(table, segment);
      var payloadEnd := decoded.transportPayloadOffset + decoded.transportPayloadLength;
      var payload := packet[decoded.transportPayloadOffset..payloadEnd];
      var verdict := EvaluatePayload(key, decoded.tcpSeq, payload, options);
      assert (directions, verdict) == TableStep(table, segment, options);
      result := result.(disposition := verdict.disposition);
      if verdict.disposition == AppDataPrefix {
        result := result.(outputLen := ToU32(decoded.transportPayloadOffset + verdict.keptPayload));
      }
    }
  }

  /** The table after some headers have been read: a Handshake confirms the reverse direction. */
  function Told(table: Table, key: DirectionKey, headers: seq<Header>): Table {
    if HasType(headers, HANDSHAKE) then Confirm(table, key.Reverse()) else table
  }

  /** The table after the accepted headers of a segment, for a direction that was in `state`. */
  function AfterRecords(
    table: Table, key: DirectionKey, state: DirectionState, payloadSize: nat, headers: seq<Header>): Table {
    Told(table, key, headers)[key := Absorb(state, payloadSize, headers)]
  }

  /** Where the record loop ends up from some point on, if it rejects nothing: the table, whether it
      stopped at bytes that are no record header, and the cut. */
  ghost function Finish(
    table: Table, key: DirectionKey, state: DirectionState, payload: seq<byte>, offset: nat, cut: Candidate,
    options: TlsOptions)
    : (Table, bool, Candidate)
  {
    var records := RecordsFrom(payload, offset);
    var last := CandidateCut(|payload|, records.headers, options);
    (AfterRecords(table, key, state, |payload|, records.headers), records.bad, if last.Some? then last else cut)
  }

  lemma {:induction false} Overwrites(table: Table, key: DirectionKey, first: DirectionState, second: DirectionState)
    ensures table[key := first][key := second] == table[key := second]
    ensures table[key := first] - {key} == table - {key}
    ensures (table - {key})[key := first] == table[key := first]
  {
  }

  lemma {:induction false} AbsorbCons(state: DirectionState, payloadSize: nat, header: Header, rest: seq<Header>)
    requires rest != [] ==> header.End() <= payloadSize
    ensures Absorb(state, payloadSize, [header] + rest)
            == Absorb(WithHeader(state, payloadSize, header), payloadSize, rest)
  {
    HasTypeCons(header, rest, HANDSHAKE);
    HasTypeCons(header, rest, APPLICATION_DATA);
  }

  /** Confirming the reverse direction early or late makes no difference, also when it is the direction itself. */
  lemma {:induction false} AfterRecordsCons(
    table: Table, key: DirectionKey, state: DirectionState, payloadSize: nat, header: Header, rest: seq<Header>)
    requires rest != [] ==> header.End() <= payloadSize
    ensures var told := if header.contentType == HANDSHAKE
                        then Confirm(table[key := state.(synchronized := true, confirmedTls := true)], key.Reverse())
                        else table;
            AfterRecords(table, key, state, payloadSize, [header] + rest)
            == AfterRecords(told, key, WithHeader(state, payloadSize, header), payloadSize, rest)
  {
    AbsorbCons(state, payloadSize, header, rest);
    HasTypeCons(header, rest, HANDSHAKE);
  }

  lemma {:induction false} FinishStep(
    table: Table, key: DirectionKey, state: DirectionState, payload: seq<byte>, offset: nat, cut: Candidate,
    options: TlsOptions)
    requires offset < |payload| && ReadTlsRecordHeader(payload, offset).Some?
    ensures var header := ReadTlsRecordHeader(payload, offset).value;
            var told := if header.contentType == HANDSHAKE
                        then Confirm(table[key := state.(synchronized := true, confirmedTls := true)], key.Reverse())
                        else table;
            Finish(table, key, state, payload, offset, cut, options)
            == Finish(told, key, WithHeader(state, |payload|, header), payload, header.End(),
                      CutAfterHeader(cut, |payload|, header, options), options)
  {
    var header := ReadTlsRecordHeader(payload, offset).value;
    var rest := RecordsFrom(payload, header.End()).headers;
    AfterRecordsCons(table, key, state, |payload|, header, rest);
    assert ([header] + rest)[1..] == rest;
  }

  lemma {:induction false} FinishStarts(
    table: Table, key: DirectionKey, state: DirectionState, payload: seq<byte>, start: nat, options: TlsOptions)
    ensures var records := RecordsFrom(payload, start);
            Finish(table, key, state, payload, start, None, options)
            == (AfterRecords(table, key, state, |payload|, records.headers), records.bad,
                CandidateCut(|payload|, records.headers, options))
  {
  }

  /** At the end of the payload, or at bytes that are no record header, the loop is done. */
  lemma {:induction false} FinishEnds(
    table: Table, key: DirectionKey, state: DirectionState, payload: seq<byte>, offset: nat, cut: Candidate,
    options: TlsOptions)
    requires state.synchronized
    requires offset >= |payload| || ReadTlsRecordHeader(payload, offset).None?
    ensures Finish(table, key, state, payload, offset, cut, options) == (table[key := state], offset < |payload|, cut)
  {
    hide ReadTlsRecordHeader;
  }

  /** Whether a segment is accepted shows in its first header. */
  lemma {:induction false} AcceptsFirst(state: DirectionState, payload: seq<byte>, start: nat)
    requires start < |payload|
    ensures var header := ReadTlsRecordHeader(payload, start);
            Accepts(state, RecordsFrom(payload, start).headers)
            <==> state.synchronized || (header.Some? && (state.confirmedTls || header.value.contentType == HANDSHAKE))
  {
    hide ReadTlsRecordHeader;
  }

  lemma {:induction false} HeaderIsInside(payload: seq<byte>, offset: nat)
    ensures var header := ReadTlsRecordHeader(payload, offset);
            header.Some? ==> header.value.offset == offset && offset + RECORD_HEADER_SIZE <= |payload|
  {
  }

  lemma {:induction false} RecordsStayInBounds(payload: seq<byte>, offset: nat)
    ensures forall i :: 0 <= i < |RecordsFrom(payload, offset).headers| ==>
              var h := RecordsFrom(payload, offset).headers[i];
              offset <= h.offset && h.offset + RECORD_HEADER_SIZE <= |payload| && IsTlsContentType(h.contentType)
    decreases |payload| - offset
  {
    if offset < |payload| && ReadTlsRecordHeader(payload, offset).Some? {
      RecordsStayInBounds(payload, ReadTlsRecordHeader(payload, offset).value.End());
    }
  }

  lemma {:induction false} RecordsStepKeepsInvariant(
    state: DirectionState, seqNumber: u32, payload: seq<byte>, start: nat, options: TlsOptions)
    requires state == FRESH || StateInvariant(state)
    requires !state.hasActiveRecord
    ensures var outcome := RecordsStep(state, seqNumber, payload, start, options);
            && (outcome.next.Some? ==> StateInvariant(outcome.next.value))
            && (outcome.next.Some? ==> outcome.handshake || state.confirmedTls)
            && (outcome.next.None? ==> !outcome.handshake && !state.confirmedTls)
  {
    RecordsStayInBounds(payload, start);
  }

  lemma {:induction false} DirectionStepKeepsInvariant(
    state: DirectionState, seqNumber: u32, payload: seq<byte>, options: TlsOptions)
    requires payload != []
    requires state == FRESH || StateInvariant(state)
    ensures var outcome := DirectionStep(state, seqNumber, payload, options);
            && (outcome.next.Some? ==> StateInvariant(outcome.next.value))
            && (outcome.next.Some? ==> outcome.handshake || state.confirmedTls)
            && (outcome.next.None? ==> !outcome.handshake && !state.confirmedTls)
  {
    var current := Resynchronize(state, seqNumber);
    RecordsStepKeepsInvariant(current.ClearActiveRecord(), seqNumber, payload, 0, options);
    RecordsStepKeepsInvariant(current.ClearActiveRecord(), seqNumber, payload, current.activeRecordRemainingBytes,
                              options);
    if !current.hasActiveRecord {
      assert current == current.ClearActiveRecord();
    }
  }

  lemma {:induction false} ClearedEntryInvariant(table: Table, segment: Segment)
    requires TableInvariant(table)
    ensures TableInvariant(AfterFlags(table, segment))
    ensures var entry := DirectionOf(AfterFlags(table, segment), segment.key);
            entry == FRESH || StateInvariant(entry)
  {
  }

  /** One packet keeps the table invariant. */
  lemma {:induction false} PacketStepKeepsInvariant(
    table: Table, packet: seq<byte>, decoded: PacketDecodeResult, options: TlsOptions)
    requires TableInvariant(table)
    ensures TableInvariant(PacketStep(table, packet, decoded, options).0)
  {
    if HasBytes(packet, decoded.transportPayloadOffset, decoded.transportPayloadLength) {
      StepKeepsInvariant(table, SegmentOf(packet, decoded), options);
    }
    ClearedEntryInvariant(table, Segment(MakeDirectionKey(decoded), decoded.tcpSeq, decoded.tcpFlags, []));
  }

  /** One segment keeps the table invariant. */
  lemma {:induction false} StepKeepsInvariant(table: Table, segment: Segment, options: TlsOptions)
    requires TableInvariant(table)
    ensures TableInvariant(TableStep(table, segment, options).0)
  {
    var cleared := AfterFlags(table, segment);
    ClearedEntryInvariant(table, segment);
    if segment.payload != [] {
      DirectionStepKeepsInvariant(DirectionOf(cleared, segment.key), segment.seqNumber, segment.payload, options);
    }
  }
}
