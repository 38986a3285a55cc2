/** The histories of the two trackers in terms of captured packets: a trace of packets drives each tracker
    through the run of the segments or datagrams it is given, so that what the tables hold, and every cut, goes
    back to an earlier packet of the same flow. */
module PolicyHistories {
  import opened Bytes
  import opened Config
  import opened PacketDecode
  import opened Policy
  import opened PolicyTraces
  import Tls
  import TlsTraces
  import Quic
  import QuicTraces

  // ---------------------------------------------------------------------------------------------
  // The values present in a list of options

  function Present<T>(items: seq<Option<T>>): seq<T> {
    if items == [] then []
    else
      var n := |items| - 1;
      Present(items[..n]) + if items[n].Some? then [items[n].value] else []
  }

  lemma {:induction false} PresentPrefix<T>(items: seq<Option<T>>, j: nat)
    requires j <= |items|
    ensures |Present(items[..j])| <= |Present(items)|
    ensures Present(items)[..|Present(items[..j])|] == Present(items[..j])
  {
    var n := |items| - 1;
    if j <= n {
      PresentPrefix(items[..n], j);
      assert items[..n][..j] == items[..j];
    } else {
      assert items[..j] == items;
    }
  }

  /** Where the value of position `j` stands. */
  lemma {:induction false} PresentAt<T>(items: seq<Option<T>>, j: nat)
    requires j < |items| && items[j].Some?
    ensures var k := |Present(items[..j])|;
            k < |Present(items)| && Present(items)[k] == items[j].value && Present(items)[..k] == Present(items[..j])
  {
    PresentPrefix(items, j);
    PresentPrefix(items, j + 1);
    assert items[..j + 1][..j] == items[..j];
    assert Present(items[..j + 1]) == Present(items[..j]) + [items[j].value];
  }

  /** The position of the value that stands at `k`. */
  lemma {:induction false} PositionOf<T>(items: seq<Option<T>>, k: nat) returns (j: nat)
    requires k < |Present(items)|
    ensures j < |items| && items[j].Some? && |Present(items[..j])| == k && Present(items)[k] == items[j].value
  {
    var n := |items| - 1;
    if k < |Present(items[..n])| {
      j := PositionOf(items[..n], k);
      assert items[..n][..j] == items[..j];
    } else {
      j := n;
    }
  }

  lemma {:induction false} PresentOrder<T>(items: seq<Option<T>>, j: nat, m: nat)
    requires j < |items| && m < |items| && items[j].Some? && items[m].Some?
    ensures j < m <==> |Present(items[..j])| < |Present(items[..m])|
  {
    if j < m {
      PresentAt(items[..m], j);
      assert items[..m][..j] == items[..j];
    } else {
      PresentPrefix(items[..j], m);
      assert items[..j][..m] == items[..m];
    }
  }

  // ---------------------------------------------------------------------------------------------
  // The events of a trace

  /** The segment of a packet that the TLS tracker is given. */
  function SegmentIn(packet: CapturedPacket, config: PolicyConfig): Option<Tls.Segment> {
    var decoded := Decoded(packet.Bytes());
    if !AsksTls(decoded, Classify(packet, decoded, config)) then None
    else
      TransportIsInBounds(packet);
      Some(Tls.SegmentOf(packet.Bytes(), decoded))
  }

  /** The datagram of a packet that the QUIC learner is given. */
  function DatagramIn(packet: CapturedPacket, config: PolicyConfig): Option<Quic.Datagram> {
    var decoded := Decoded(packet.Bytes());
    if !AsksQuic(decoded, Classify(packet, decoded, config)) then None
    else
      TransportIsInBounds(packet);
      Some(Quic.DatagramOf(packet.Bytes(), decoded))
  }

  lemma {:induction false} DatagramInIsWellFormed(packet: CapturedPacket, config: PolicyConfig)
    ensures DatagramIn(packet, config).Some? ==> DatagramIn(packet, config).value.WellFormed()
  {
    hide Decoded;
    hide WellFormedDecode;
    hide Quic.PaddedAddresses;
    hide Quic.Datagram.WellFormed;
    hide Quic.DatagramOf;
    if DatagramIn(packet, config).Some? {
      DecodedAddressesArePadded(packet, config);
      TransportIsInBounds(packet);
      Quic.DatagramIsWellFormed(packet.Bytes(), Decoded(packet.Bytes()));
    }
  }

  /** A packet drives the trackers through the step of its segment or datagram. */
  lemma {:induction false} StepIsEvents(state: PolicyState, packet: CapturedPacket, config: PolicyConfig)
    ensures PolicyStep(state, packet, config).0.tls
            == match SegmentIn(packet, config)
               case Some(segment) => Tls.TableStep(state.tls, segment, config.tls).0
               case None => state.tls
    ensures DatagramIn(packet, config).Some? ==> DatagramIn(packet, config).value.WellFormed()
    ensures PolicyStep(state, packet, config).0.quic
            == match DatagramIn(packet, config)
               case Some(datagram) => Quic.TableStep(state.quic, datagram, config.quic).0
               case None => state.quic
    ensures PolicyStep(state, packet, config).1.reason == TlsApplicationDataConstricted ==>
              && SegmentIn(packet, config).Some?
              && Tls.TableStep(state.tls, SegmentIn(packet, config).value, config.tls).1.disposition
                 == Tls.AppDataPrefix
    ensures PolicyStep(state, packet, config).1.reason in {QuicShortHeaderConstricted, QuicShortHeaderMatched} ==>
              && DatagramIn(packet, config).Some?
              && Quic.TableStep(state.quic, DatagramIn(packet, config).value, config.quic).1.disposition
                 == Quic.ShortHeaderMatched
  {
    hide Decoded;
    hide WellFormedDecode;
    hide Tls.DirectionStep;
    hide Tls.DirectionOf;
    hide Quic.TableStep;
    hide Quic.PacketStep;
    hide Quic.PaddedAddresses;
    hide Quic.DatagramOf;
    hide Quic.Datagram.WellFormed;
    DatagramInIsWellFormed(packet, config);
    var decoded := Decoded(packet.Bytes());
    if AsksTls(decoded, Classify(packet, decoded, config)) {
      TransportIsInBounds(packet);
    } else if AsksQuic(decoded, Classify(packet, decoded, config)) {
      DecodedAddressesArePadded(packet, config);
      TransportIsInBounds(packet);
      Quic.PacketIsStep(state.quic, packet.Bytes(), decoded, config.quic);
    }
  }

  function SegmentsIn(packets: seq<CapturedPacket>, config: PolicyConfig): (items: seq<Option<Tls.Segment>>)
    ensures |items| == |packets| && forall i :: 0 <= i < |packets| ==> items[i] == SegmentIn(packets[i], config)
  {
    seq(|packets|, i requires 0 <= i < |packets| => SegmentIn(packets[i], config))
  }

  function DatagramsIn(packets: seq<CapturedPacket>, config: PolicyConfig): (items: seq<Option<Quic.Datagram>>)
    ensures |items| == |packets| && forall i :: 0 <= i < |packets| ==> items[i] == DatagramIn(packets[i], config)
  {
    seq(|packets|, i requires 0 <= i < |packets| => DatagramIn(packets[i], config))
  }

  function Segments(packets: seq<CapturedPacket>, config: PolicyConfig): (segments: seq<Tls.Segment>)
    ensures packets == [] ==> segments == []
  {
    Present(SegmentsIn(packets, config))
  }

  function Datagrams(packets: seq<CapturedPacket>, config: PolicyConfig): (datagrams: seq<Quic.Datagram>)
    ensures packets == [] ==> datagrams == []
  {
    Present(DatagramsIn(packets, config))
  }

  lemma {:induction false} EventsOfPrefix(packets: seq<CapturedPacket>, n: nat, config: PolicyConfig)
    requires n <= |packets|
    ensures SegmentsIn(packets, config)[..n] == SegmentsIn(packets[..n], config)
    ensures DatagramsIn(packets, config)[..n] == DatagramsIn(packets[..n], config)
  {
    hide SegmentIn;
    hide DatagramIn;
  }

  lemma {:induction false} DatagramsAreWellFormed(packets: seq<CapturedPacket>, config: PolicyConfig)
    ensures QuicTraces.AllWellFormed(Datagrams(packets, config))
  {
    hide DatagramIn;
    hide Present;
    hide Quic.Datagram.WellFormed;
    forall k | 0 <= k < |Datagrams(packets, config)|
      ensures Datagrams(packets, config)[k].WellFormed()
    {
      var j := PositionOf(DatagramsIn(packets, config), k);
      DatagramInIsWellFormed(packets[j], config);
    }
  }

  /** The events of a trace are those before its last packet, and that of its last packet if it has one. */
  lemma {:induction false} LastEvent(packets: seq<CapturedPacket>, config: PolicyConfig)
    requires packets != []
    ensures var n := |packets| - 1;
            && Segments(packets, config)
               == Segments(packets[..n], config)
                  + (match SegmentIn(packets[n], config) case Some(segment) => [segment] case None => [])
            && Datagrams(packets, config)
               == Datagrams(packets[..n], config)
                  + (match DatagramIn(packets[n], config) case Some(datagram) => [datagram] case None => [])
  {
    hide SegmentIn;
    hide DatagramIn;
    EventsOfPrefix(packets, |packets| - 1, config);
  }

  lemma {:induction false} SegmentRunSnoc(
    table: Tls.Table, events: seq<Tls.Segment>, event: Tls.Segment, options: TlsOptions)
    ensures TlsTraces.Run(table, events + [event], options)
            == Tls.TableStep(TlsTraces.Run(table, events, options), event, options).0
  {
    hide Tls.TableStep;
    assert (events + [event])[..|events|] == events;
  }

  lemma {:induction false} DatagramRunSnoc(
    table: Quic.FlowTable, events: seq<Quic.Datagram>, event: Quic.Datagram, options: QuicOptions)
    requires QuicTraces.AllWellFormed(events) && event.WellFormed()
    ensures QuicTraces.AllWellFormed(events + [event])
    ensures QuicTraces.Run(table, events + [event], options)
            == Quic.TableStep(QuicTraces.Run(table, events, options), event, options).0
  {
    hide Quic.TableStep;
    hide Quic.Datagram.WellFormed;
    assert (events + [event])[..|events|] == events;
  }

  lemma {:induction false} FinalStateSnoc(state: PolicyState, packets: seq<CapturedPacket>, config: PolicyConfig)
    requires packets != []
    ensures var n := |packets| - 1;
            FinalState(state, packets, config)
            == PolicyStep(FinalState(state, packets[..n], config), packets[n], config).0
    decreases |packets|
  {
    hide PolicyStep;
    var n := |packets| - 1;
    if n > 0 {
      var next := PolicyStep(state, packets[0], config).0;
      FinalStateSnoc(next, packets[1..], config);
      assert packets[1..][..n - 1] == packets[..n][1..];
    }
  }

  lemma {:induction false} DecisionAt(state: PolicyState, packets: seq<CapturedPacket>, i: nat, config: PolicyConfig)
    requires i < |packets|
    ensures Decisions(state, packets, config)[i]
            == PolicyStep(FinalState(state, packets[..i], config), packets[i], config).1
    decreases i
  {
    hide PolicyStep;
    if i > 0 {
      DecisionAt(PolicyStep(state, packets[0], config).0, packets[1..], i - 1, config);
      assert packets[1..][..i - 1] == packets[..i][1..];
    }
  }

  /** The trackers' tables after a trace of packets. */
  function After(packets: seq<CapturedPacket>, config: PolicyConfig): PolicyState {
    FinalState(INITIAL_STATE, packets, config)
  }

  /** The tables after any trace of packets are those of the runs of the events in it. */
  lemma {:induction false} TracesAreRuns(packets: seq<CapturedPacket>, config: PolicyConfig)
    ensures After(packets, config).tls == TlsTraces.Run(map[], Segments(packets, config), config.tls)
    ensures QuicTraces.AllWellFormed(Datagrams(packets, config))
    ensures After(packets, config).quic == QuicTraces.Run(map[], Datagrams(packets, config), config.quic)
    decreases |packets|
  {
    hide PolicyStep;
    hide Segments;
    hide Datagrams;
    hide SegmentIn;
    hide DatagramIn;
    hide Tls.TableStep;
    hide Quic.TableStep;
    hide Quic.Datagram.WellFormed;
    hide QuicTraces.AllWellFormed;
    DatagramsAreWellFormed(packets, config);
    if packets != [] {
      var n := |packets| - 1;
      var segments, datagrams := Segments(packets[..n], config), Datagrams(packets[..n], config);
      TracesAreRuns(packets[..n], config);
      FinalStateSnoc(INITIAL_STATE, packets, config);
      LastEvent(packets, config);
      StepIsEvents(After(packets[..n], config), packets[n], config);
      if SegmentIn(packets[n], config).Some? {
        SegmentRunSnoc(map[], segments, SegmentIn(packets[n], config).value, config.tls);
      } else {
        assert Segments(packets, config) == segments;
      }
      if DatagramIn(packets[n], config).Some? {
        DatagramRunSnoc(map[], datagrams, DatagramIn(packets[n], config).value, config.quic);
      } else {
        assert Datagrams(packets, config) == datagrams;
      }
    }
  }

  /** What a decision says about the event of its packet: what its tracker answered. */
  lemma {:induction false} DecisionIsVerdict(packets: seq<CapturedPacket>, i: nat, config: PolicyConfig)
    requires i < |packets|
    ensures QuicTraces.AllWellFormed(Datagrams(packets[..i], config))
    ensures Decisions(INITIAL_STATE, packets, config)[i].reason == TlsApplicationDataConstricted ==>
              && SegmentIn(packets[i], config).Some?
              && Tls.TableStep(TlsTraces.Run(map[], Segments(packets[..i], config), config.tls),
                               SegmentIn(packets[i], config).value, config.tls).1.disposition == Tls.AppDataPrefix
    ensures Decisions(INITIAL_STATE, packets, config)[i].reason in {QuicShortHeaderConstricted,
                                                                    QuicShortHeaderMatched} ==>
              && DatagramIn(packets[i], config).Some?
              && DatagramIn(packets[i], config).value.WellFormed()
              && Quic.TableStep(QuicTraces.Run(map[], Datagrams(packets[..i], config), config.quic),
                                DatagramIn(packets[i], config).value, config.quic).1.disposition
                 == Quic.ShortHeaderMatched
  {
    hide Decisions;
    hide PolicyStep;
    hide FinalState;
    hide Segments;
    hide Datagrams;
    hide SegmentIn;
    hide DatagramIn;
    hide Tls.TableStep;
    hide Quic.TableStep;
    hide Quic.Datagram.WellFormed;
    hide QuicTraces.AllWellFormed;
    hide TlsTraces.Run;
    hide QuicTraces.Run;
    DecisionAt(INITIAL_STATE, packets, i, config);
    TracesAreRuns(packets[..i], config);
    StepIsEvents(After(packets[..i], config), packets[i], config);
  }

  // ---------------------------------------------------------------------------------------------
  // TLS

  /** In packet `j`, the TLS tracker accepts a Handshake record header of the flow of `key`. */
  ghost predicate HandshakePacket(packets: seq<CapturedPacket>, j: nat, key: Tls.DirectionKey, config: PolicyConfig)
    requires j < |packets|
  {
    match SegmentIn(packets[j], config)
    case Some(segment) => segment.InFlow(key) && TlsTraces.AcceptsHandshake(After(packets[..j], config).tls, segment)
    case None => false
  }

  /** The tracker is given a SYN or RST of the flow of `key`. */
  predicate ResetsFlow(packet: CapturedPacket, key: Tls.DirectionKey, config: PolicyConfig) {
    match SegmentIn(packet, config)
    case Some(segment) => segment.InFlow(key) && segment.SynOrRst()
    case None => false
  }

  /** Packet `j` confirms the flow, and no later packet of the trace resets it. */
  ghost predicate ConfirmedBy(packets: seq<CapturedPacket>, j: nat, key: Tls.DirectionKey, config: PolicyConfig)
    requires j < |packets|
  {
    && HandshakePacket(packets, j, key, config)
    && forall m :: j < m < |packets| ==> !ResetsFlow(packets[m], key, config)
  }

  /** The event of packet `j` plays for the run of segments the part that the packet plays for the trace. */
  lemma {:induction false} ConfirmedByEvent(
    packets: seq<CapturedPacket>, j: nat, key: Tls.DirectionKey, config: PolicyConfig)
    requires j < |packets| && SegmentIn(packets[j], config).Some?
    ensures var k := |Segments(packets[..j], config)|;
            && k < |Segments(packets, config)|
            && (ConfirmedBy(packets, j, key, config)
                <==> TlsTraces.HandshakeAt(Segments(packets, config), k, key, config.tls)
                     && TlsTraces.NoResetAfter(Segments(packets, config), k, key))
  {
    hide SegmentIn;
    hide Present;
    hide After;
    hide TlsTraces.Run;
    hide TlsTraces.AcceptsHandshake;
    hide Tls.Segment.InFlow;
    hide Tls.Segment.SynOrRst;
    var items, events, k := SegmentsIn(packets, config), Segments(packets, config), |Segments(packets[..j], config)|;
    EventsOfPrefix(packets, j, config);
    PresentAt(items, j);
    TracesAreRuns(packets[..j], config);
    if TlsTraces.NoResetAfter(events, k, key) {
      forall m | j < m < |packets| ensures !ResetsFlow(packets[m], key, config) {
        if items[m].Some? {
          PresentAt(items, m);
          PresentOrder(items, j, m);
        }
      }
    }
    if forall m :: j < m < |packets| ==> !ResetsFlow(packets[m], key, config) {
      forall i | k < i < |events| && events[i].InFlow(key) ensures !events[i].SynOrRst() {
        var m := PositionOf(items, i);
        PresentOrder(items, j, m);
        assert !ResetsFlow(packets[m], key, config);
      }
    }
  }

  /** After every trace of packets, a direction is stored exactly when a packet of its flow, in either direction,
      carried a Handshake record header that was accepted, and no later one was a SYN or RST. */
  lemma {:induction false} PacketConfirmation(
    packets: seq<CapturedPacket>, key: Tls.DirectionKey, config: PolicyConfig)
    ensures key in After(packets, config).tls
            <==> exists j :: 0 <= j < |packets| && ConfirmedBy(packets, j, key, config)
  {
    hide SegmentIn;
    hide Present;
    hide After;
    hide TlsTraces.Run;
    hide TlsTraces.HandshakeAt;
    hide TlsTraces.NoResetAfter;
    var events := Segments(packets, config);
    TracesAreRuns(packets, config);
    TlsTraces.ConfirmationHistory(events, key, config.tls);
    if TlsTraces.HandshakeSinceReset(events, key, config.tls) {
      var k :| 0 <= k < |events| && TlsTraces.HandshakeAt(events, k, key, config.tls)
               && TlsTraces.NoResetAfter(events, k, key);
      var j := PositionOf(SegmentsIn(packets, config), k);
      EventsOfPrefix(packets, j, config);
      ConfirmedByEvent(packets, j, key, config);
    }
    if j :| 0 <= j < |packets| && ConfirmedBy(packets, j, key, config) {
      ConfirmedByEvent(packets, j, key, config);
    }
  }

  /** A packet whose segment is of the flow of `key` goes between its ends. */
  lemma {:induction false} SegmentTellsFlow(packet: CapturedPacket, config: PolicyConfig)
    requires SegmentIn(packet, config).Some?
    ensures FlowOf(packet) == Some(Flow(Tcp, EndsOfDirection(SegmentIn(packet, config).value.key)))
  {
    hide Decoded;
    hide WellFormedDecode;
  }

  /** In every trace, a packet that is cut for TLS has a packet of its own flow before it, or is one itself, whose
      Handshake record header was accepted, with no SYN or RST of the flow since. */
  lemma {:induction false} TlsCutHasHandshake(packets: seq<CapturedPacket>, i: nat, config: PolicyConfig)
    requires i < |packets|
    requires Decisions(INITIAL_STATE, packets, config)[i].reason == TlsApplicationDataConstricted
    ensures SegmentIn(packets[i], config).Some?
    ensures exists j :: 0 <= j <= i && ConfirmedBy(packets[..i + 1], j, SegmentIn(packets[i], config).value.key, config)
                        && FlowOf(packets[j]) == FlowOf(packets[i])
  {
    hide Decisions;
    hide SegmentIn;
    hide Segments;
    hide After;
    hide FlowOf;
    hide EndsOfDirection;
    hide ConfirmedBy;
    hide Tls.TableStep;
    hide TlsTraces.Run;
    var upTo := packets[..i + 1];
    DecisionIsVerdict(packets, i, config);
    var segment := SegmentIn(packets[i], config).value;
    LastEvent(upTo, config);
    assert upTo[..i] == packets[..i];
    CutLeavesEntry(Segments(packets[..i], config), segment, config.tls);
    TracesAreRuns(upTo, config);
    PacketConfirmation(upTo, segment.key, config);
    var j :| 0 <= j <= i && ConfirmedBy(upTo, j, segment.key, config);
    ConfirmedInFlow(upTo, j, segment.key, config);
    SegmentTellsFlow(packets[i], config);
  }

  lemma {:induction false} CutLeavesEntry(events: seq<Tls.Segment>, event: Tls.Segment, options: TlsOptions)
    requires Tls.TableStep(TlsTraces.Run(map[], events, options), event, options).1.disposition == Tls.AppDataPrefix
    ensures event.key in TlsTraces.Run(map[], events + [event], options)
  {
    hide Tls.TableStep;
    hide TlsTraces.Run;
    hide TlsTraces.HandshakeSinceReset;
    var all, n := events + [event], |events|;
    assert all[..n] == events && all[..n + 1] == all;
    TlsTraces.CutNeedsHandshake(all, n, options);
    TlsTraces.ConfirmationHistory(all, event.key, options);
  }

  lemma {:induction false} ConfirmedInFlow(
    packets: seq<CapturedPacket>, j: nat, key: Tls.DirectionKey, config: PolicyConfig)
    requires j < |packets| && ConfirmedBy(packets, j, key, config)
    ensures FlowOf(packets[j]) == Some(Flow(Tcp, EndsOfDirection(key)))
  {
    hide SegmentIn;
    hide FlowOf;
    hide EndsOfDirection;
    hide After;
    hide TlsTraces.AcceptsHandshake;
    SegmentTellsFlow(packets[j], config);
    DirectionsOfEnds(SegmentIn(packets[j], config).value.key, key);
  }

  // ---------------------------------------------------------------------------------------------
  // QUIC

  /** The packet carries a long header that teaches a connection ID of the sender of `d` towards its receiver. */
  predicate Announces(packet: CapturedPacket, d: Quic.Datagram, config: PolicyConfig) {
    match DatagramIn(packet, config)
    case Some(e) => QuicTraces.SameDirection(e, d) && QuicTraces.Taught(e).Cid?
    case None => false
  }

  /** Packet `j` is the last one of the trace to do so. */
  ghost predicate LastAnnouncement(packets: seq<CapturedPacket>, j: nat, d: Quic.Datagram, config: PolicyConfig)
    requires j < |packets|
  {
    Announces(packets[j], d, config) && forall m :: j < m < |packets| ==> !Announces(packets[m], d, config)
  }

  /** What packet `j` teaches. */
  function Announced(packet: CapturedPacket, config: PolicyConfig): Quic.ConnectionId {
    match DatagramIn(packet, config)
    case Some(e) => QuicTraces.Taught(e)
    case None => Quic.UnknownCid
  }

  lemma {:induction false} AnnouncementEvent(
    packets: seq<CapturedPacket>, j: nat, d: Quic.Datagram, config: PolicyConfig)
    requires j < |packets| && DatagramIn(packets[j], config).Some?
    ensures var k := |Datagrams(packets[..j], config)|;
            && k < |Datagrams(packets, config)|
            && QuicTraces.Taught(Datagrams(packets, config)[k]) == Announced(packets[j], config)
            && (LastAnnouncement(packets, j, d, config)
                <==> QuicTraces.LastTeaching(Datagrams(packets, config), k, d))
  {
    hide DatagramIn;
    hide Present;
    hide QuicTraces.Taught;
    hide QuicTraces.SameDirection;
    var items, events, k := DatagramsIn(packets, config), Datagrams(packets, config), |Datagrams(packets[..j], config)|;
    EventsOfPrefix(packets, j, config);
    PresentAt(items, j);
    if QuicTraces.LastTeaching(events, k, d) {
      forall m | j < m < |packets| ensures !Announces(packets[m], d, config) {
        if items[m].Some? {
          PresentAt(items, m);
          PresentOrder(items, j, m);
        }
      }
    }
    if forall m :: j < m < |packets| ==> !Announces(packets[m], d, config) {
      forall i | k < i < |events| && QuicTraces.SameDirection(events[i], d)
        ensures QuicTraces.Taught(events[i]).UnknownCid?
      {
        var m := PositionOf(items, i);
        PresentOrder(items, j, m);
        assert !Announces(packets[m], d, config);
      }
    }
  }

  /** After every trace of packets, the connection ID stored for an endpoint is the one that the last packet to
      announce one, from that endpoint to the other, announced. */
  lemma {:induction false} PacketLearning(
    packets: seq<CapturedPacket>, d: Quic.Datagram, cid: Quic.ConnectionId, config: PolicyConfig)
    requires d.WellFormed() && cid.Cid?
    ensures QuicTraces.StoredCid(After(packets, config).quic, d) == cid
            <==> exists j :: 0 <= j < |packets| && LastAnnouncement(packets, j, d, config)
                             && Announced(packets[j], config) == cid
  {
    hide DatagramIn;
    hide Present;
    hide After;
    hide Quic.Datagram.WellFormed;
    hide QuicTraces.Run;
    hide QuicTraces.Taught;
    hide QuicTraces.StoredCid;
    hide QuicTraces.SameDirection;
    hide QuicTraces.LastTeaching;
    var events := Datagrams(packets, config);
    TracesAreRuns(packets, config);
    QuicTraces.LearningHistory(events, d, cid, config.quic);
    if QuicTraces.Learnt(events, d, cid) {
      var k :| 0 <= k < |events| && QuicTraces.LastTeaching(events, k, d) && QuicTraces.Taught(events[k]) == cid;
      var j := PositionOf(DatagramsIn(packets, config), k);
      EventsOfPrefix(packets, j, config);
      AnnouncementEvent(packets, j, d, config);
    }
    if j :| 0 <= j < |packets| && LastAnnouncement(packets, j, d, config) && Announced(packets[j], config) == cid {
      AnnouncementEvent(packets, j, d, config);
    }
  }

  lemma {:induction false} DatagramTellsFlow(packet: CapturedPacket, config: PolicyConfig)
    requires DatagramIn(packet, config).Some?
    ensures var d := DatagramIn(packet, config).value; FlowOf(packet) == Some(Flow(Udp, {d.source, d.destination}))
  {
    hide Decoded;
    hide WellFormedDecode;
  }

  lemma {:induction false} AnnouncedInFlow(packet: CapturedPacket, d: Quic.Datagram, config: PolicyConfig)
    requires Announces(packet, QuicTraces.Backward(d), config)
    ensures FlowOf(packet) == Some(Flow(Udp, {d.source, d.destination}))
  {
    hide DatagramIn;
    hide FlowOf;
    hide QuicTraces.Taught;
    DatagramTellsFlow(packet, config);
    SamePair(d.destination, d.source, d.source, d.destination);
  }

  lemma {:induction false} TurnedAround(d: Quic.Datagram)
    requires d.WellFormed()
    ensures QuicTraces.Backward(d).WellFormed()
  {
  }

  /** In every trace, with `requireDcidMatch`, a packet whose short header is matched, cut or not, goes between
      distinct ends, and carries a connection ID that its receiver announced in an earlier packet of the same flow,
      the last one of its packets there to announce any. */
  lemma {:induction false} QuicMatchHasAnnouncement(packets: seq<CapturedPacket>, i: nat, config: PolicyConfig)
    requires i < |packets| && config.quic.requireDcidMatch
    requires Decisions(INITIAL_STATE, packets, config)[i].reason in {QuicShortHeaderConstricted, QuicShortHeaderMatched}
    ensures DatagramIn(packets[i], config).Some?
    ensures var d := DatagramIn(packets[i], config).value;
            && d.source != d.destination
            && exists j :: 0 <= j < i && LastAnnouncement(packets[..i], j, QuicTraces.Backward(d), config)
                           && FlowOf(packets[j]) == FlowOf(packets[i])
                           && Announced(packets[j], config).Cid?
                           && QuicTraces.Carries(d, Announced(packets[j], config))
  {
    hide Decisions;
    hide DatagramIn;
    hide Datagrams;
    hide FlowOf;
    hide Quic.TableStep;
    hide Quic.Datagram.WellFormed;
    hide QuicTraces.AllWellFormed;
    hide QuicTraces.Run;
    hide QuicTraces.StoredCid;
    hide QuicTraces.Carries;
    hide QuicTraces.Learnt;
    hide LastAnnouncement;
    hide Announced;
    DecisionIsVerdict(packets, i, config);
    var d, before := DatagramIn(packets[i], config).value, Datagrams(packets[..i], config);
    assert (before + [d])[..|before|] == before;
    DatagramRunSnoc(map[], before, d, config.quic);
    QuicTraces.MatchNeedsAnnouncement(before + [d], |before|, config.quic);
    var cid: Quic.ConnectionId :|
      cid.Cid? && QuicTraces.Learnt(before, QuicTraces.Backward(d), cid) && QuicTraces.Carries(d, cid);
    TurnedAround(d);
    QuicTraces.LearningHistory(before, QuicTraces.Backward(d), cid, config.quic);
    TracesAreRuns(packets[..i], config);
    PacketLearning(packets[..i], QuicTraces.Backward(d), cid, config);
    var j :| 0 <= j < i && LastAnnouncement(packets[..i], j, QuicTraces.Backward(d), config)
             && Announced(packets[..i][j], config) == cid;
    LastAnnounces(packets[..i], j, QuicTraces.Backward(d), config);
    AnnouncedInFlow(packets[j], d, config);
    DatagramTellsFlow(packets[i], config);
  }

  lemma {:induction false} LastAnnounces(packets: seq<CapturedPacket>, j: nat, d: Quic.Datagram, config: PolicyConfig)
    requires j < |packets| && LastAnnouncement(packets, j, d, config)
    ensures Announces(packets[j], d, config)
  {
  }
}
