/** Calls of `ReceiveNext` as parts of a run: the n-th packet that the consumer is given is the n-th packet
    that the kernel filled, whatever happens between and during the calls. */
module RingCalls {
  import opened RingMachine
  import opened RingProtocol
  import opened RingRuns
  import opened RingCapture

  /** The steps of the kernel and of the consumer over a schedule. */
  function EventsOf(moments: seq<Moment>): seq<Event> {
    if moments == [] then []
    else FillEvents(moments[0].fills) + [ConsumerSteps(moments[0].world)] + EventsOf(moments[1..])
  }

  lemma {:induction false} RunConcat(sys: System, a: seq<Event>, b: seq<Event>)
    requires sys.ring.WellFormed()
    ensures Run(sys, a + b) == Run(Run(sys, a), b)
    ensures Returns(sys, a + b) == Returns(sys, a) + Returns(Run(sys, a), b)
    decreases |a|
  {
    hide Step;
    if a == [] {
      assert a + b == b;
    } else {
      assert (a + b)[1..] == a[1..] + b;
      RunConcat(Step(sys, a[0]).0, a[1..], b);
    }
  }

  lemma {:induction false} FillsAreKernelRuns(sys: System, blocks: seq<Block>)
    requires sys.ring.WellFormed()
    ensures Run(sys, FillEvents(blocks)).ring == KernelRuns(sys.ring, blocks)
    ensures Returns(sys, FillEvents(blocks)) == []
    ensures Run(sys, FillEvents(blocks)).delivered == sys.delivered
    decreases |blocks|
  {
    hide Fill;
    if blocks != [] {
      FillIsSystemFill(sys, blocks[0]);
      assert FillEvents(blocks)[1..] == FillEvents(blocks[1..]);
      FillsAreKernelRuns(SystemFill(sys, blocks[0]), blocks[1..]);
    }
  }

  lemma {:induction false} FillIsSystemFill(sys: System, block: Block)
    requires sys.ring.WellFormed()
    ensures SystemFill(sys, block).ring == Fill(sys.ring, block)
  {
  }

  /** One pass of a call. */
  lemma {:induction false} PassIsRun(sys: System, moment: Moment)
    requires sys.ring.WellFormed()
    ensures var filled := Run(sys, FillEvents(moment.fills));
            var events := FillEvents(moment.fills) + [ConsumerSteps(moment.world)];
            && Run(sys, events) == SystemConsume(filled, moment.world).0
            && (Run(sys, events).ring, SystemConsume(filled, moment.world).1)
               == Consume(KernelRuns(sys.ring, moment.fills), moment.world)
            && Returns(sys, events)
               == if SystemConsume(filled, moment.world).1.Some?
                  then [SystemConsume(filled, moment.world).1.value] else []
  {
    hide Consume;
    hide KernelRuns;
    FillsAreKernelRuns(sys, moment.fills);
    RunConcat(sys, FillEvents(moment.fills), [ConsumerSteps(moment.world)]);
  }

  /** A call is a run of the steps of the moments that it uses, in which nothing is returned before the end. */
  lemma {:induction false} CallIsRun(sys: System, moments: seq<Moment>)
    requires sys.ring.WellFormed()
    ensures var call := Receive(sys.ring, moments); var events := EventsOf(moments[..call.used]);
            && Run(sys, events).ring == call.end
            && Returns(sys, events) == if call.returned.Some? then [call.returned.value] else []
    decreases |moments|
  {
    hide Consume;
    hide KernelRuns;
    hide SystemConsume;
    hide FillEvents;
    if moments != [] {
      var first := FillEvents(moments[0].fills) + [ConsumerSteps(moments[0].world)];
      PassIsRun(sys, moments[0]);
      var next := Run(sys, first);
      var (_, returned) := Consume(KernelRuns(sys.ring, moments[0].fills), moments[0].world);
      if returned.Some? {
        assert moments[..1][0] == moments[0] && moments[..1][1..] == [];
        assert EventsOf(moments[..1]) == first;
      } else {
        var rest := Receive(next.ring, moments[1..]);
        CallIsRun(next, moments[1..]);
        assert moments[..rest.used + 1][1..] == moments[1..][..rest.used];
        assert EventsOf(moments[..rest.used + 1]) == first + EventsOf(moments[1..][..rest.used]);
        RunConcat(sys, first, EventsOf(moments[1..][..rest.used]));
      }
    }
  }

  /** What a call returns: if a packet, it is the next one in the order in which the kernel filled them,
      after those returned so far; if anything else, it has taken none. Either way the protocol's
      invariant holds after the call, so the next call starts where this one ended. */
  lemma {:induction false} CallReturnsNextPacket(sys: System, moments: seq<Moment>)
    requires Invariant(sys) && sys.ring.WellFormed() && Receive(sys.ring, moments).returned.Some?
    ensures var call := Receive(sys.ring, moments);
            var end := Run(sys, EventsOf(moments[..call.used]));
            && Invariant(end) && end.ring == call.end
            && match call.returned.value.packet
               case None => end.delivered == sys.delivered
               case Some(packet) =>
                 && end.delivered == sys.delivered + [packet]
                 && |sys.delivered| < |AllPackets(end.filled)|
                 && packet == AllPackets(end.filled)[|sys.delivered|]
  {
    hide Invariant;
    hide Receive;
    hide Run;
    hide EventsOf;
    hide AllPackets;
    hide Pending;
    hide Returns;
    var call := Receive(sys.ring, moments);
    var events := EventsOf(moments[..call.used]);
    var end := Run(sys, events);
    CallIsRun(sys, moments);
    RunKeepsInvariant(sys, events);
    InvariantFacts(end);
    HistoryIsFaithful(sys, events);
    assert Received([call.returned.value]) ==
           if call.returned.value.packet.Some? then [call.returned.value.packet.value] else [];
    if call.returned.value.packet.Some? {
      assert (end.delivered + Pending(end))[|sys.delivered|] == call.returned.value.packet.value;
    }
  }
}
