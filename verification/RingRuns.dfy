/** Whole runs of the ring: from the moment it is opened, over every interleaving of kernel fills and
    consumer steps, what `ReceiveNext` returns is what the kernel filled, in order and once each. */
module RingRuns {
  import opened Bytes
  import opened Policy
  import opened RingMachine
  import opened RingProtocol

  function Step(sys: System, event: Event): (r: (System, Option<Return>))
    requires sys.ring.WellFormed()
    ensures r.0.ring.WellFormed()
  {
    match event
    case KernelFills(block) => (SystemFill(sys, block), None)
    case ConsumerSteps(world) => SystemConsume(sys, world)
  }

  function Run(sys: System, events: seq<Event>): (end: System)
    requires sys.ring.WellFormed()
    ensures end.ring.WellFormed()
    decreases |events|
  {
    if events == [] then sys else Run(Step(sys, events[0]).0, events[1..])
  }

  /** What `ReceiveNext` returns during a run, in order. */
  function Returns(sys: System, events: seq<Event>): seq<Return>
    requires sys.ring.WellFormed()
    decreases |events|
  {
    if events == [] then []
    else
      var (next, returned) := Step(sys, events[0]);
      (if returned.Some? then [returned.value] else []) + Returns(next, events[1..])
  }

  function Received(log: seq<Return>): seq<CapturedPacket> {
    if log == [] then []
    else (if log[0].packet.Some? then [log[0].packet.value] else []) + Received(log[1..])
  }

  function ErrorReturns(log: seq<Return>): nat {
    if log == [] then 0 else (if log[0].status == Error then 1 else 0) + ErrorReturns(log[1..])
  }

  /** The blocks that the kernel had room for, in the order in which it filled them. */
  function Accepted(sys: System, events: seq<Event>): seq<Block>
    requires sys.ring.WellFormed()
    decreases |events|
  {
    if events == [] then []
    else
      (if events[0].KernelFills? && !sys.ring.slots[sys.ring.kernelIndex].user then [events[0].block] else [])
      + Accepted(Step(sys, events[0]).0, events[1..])
  }

  // ---------------------------------------------------------------------------------------------
  // The invariant over runs

  lemma {:induction false} StepKeepsInvariant(sys: System, event: Event)
    requires Invariant(sys)
    ensures Invariant(Step(sys, event).0)
  {
    hide Invariant;
    hide SystemFill;
    hide SystemConsume;
    InvariantFacts(sys);
    match event
    case KernelFills(block) => FillKeepsInvariant(sys, block);
    case ConsumerSteps(world) => ConsumeKeepsInvariant(sys, world);
  }

  lemma {:induction false} InvariantFacts(sys: System)
    requires Invariant(sys)
    ensures sys.ring.WellFormed() && sys.released <= |sys.filled|
    ensures Bounds(sys) && Fifo(sys) && Accounting(sys) && Ownership(sys)
    ensures sys.ring.Current().user <==> sys.released < |sys.filled|
    ensures sys.ring.Current().user ==> sys.ring.Current().block == sys.filled[sys.released]
  {
    OwnershipFacts(sys);
  }

  lemma {:induction false} RunKeepsInvariant(sys: System, events: seq<Event>)
    requires Invariant(sys)
    ensures Invariant(Run(sys, events))
    decreases |events|
  {
    hide Invariant;
    hide Step;
    InvariantFacts(sys);
    if events != [] {
      StepKeepsInvariant(sys, events[0]);
      InvariantFacts(Step(sys, events[0]).0);
      RunKeepsInvariant(Step(sys, events[0]).0, events[1..]);
    }
  }

  lemma {:induction false} StepHistory(sys: System, event: Event)
    requires sys.ring.WellFormed()
    ensures var (next, returned) := Step(sys, event);
            var log := if returned.Some? then [returned.value] else [];
            && next.filled == sys.filled
               + (if event.KernelFills? && !sys.ring.slots[sys.ring.kernelIndex].user then [event.block] else [])
            && next.delivered == sys.delivered + Received(log)
            && next.pollErrors == sys.pollErrors + ErrorReturns(log)
  {
    hide Consume;
    hide Fill;
    var returned := Step(sys, event).1;
    if returned.Some? {
      assert [returned.value][1..] == [];
    }
  }

  lemma {:induction false} EmptyLog()
    ensures Received([]) == [] && ErrorReturns([]) == 0
  {
  }

  lemma {:induction false} LogConcat(first: seq<Return>, second: seq<Return>)
    requires |first| <= 1
    ensures Received(first + second) == Received(first) + Received(second)
    ensures ErrorReturns(first + second) == ErrorReturns(first) + ErrorReturns(second)
  {
    if first == [] {
      assert first + second == second;
    } else {
      assert (first + second)[1..] == second && first[1..] == [];
    }
  }

  /** The history of a system records exactly what the kernel was able to fill and what `ReceiveNext`
      returned. */
  lemma {:induction false} HistoryIsFaithful(sys: System, events: seq<Event>)
    requires sys.ring.WellFormed()
    ensures Run(sys, events).filled == sys.filled + Accepted(sys, events)
    ensures Run(sys, events).delivered == sys.delivered + Received(Returns(sys, events))
    ensures Run(sys, events).pollErrors == sys.pollErrors + ErrorReturns(Returns(sys, events))
    decreases |events|
  {
    hide Step;
    hide Received;
    hide ErrorReturns;
    if events == [] {
      EmptyLog();
    } else {
      var (next, returned) := Step(sys, events[0]);
      StepHistory(sys, events[0]);
      HistoryIsFaithful(next, events[1..]);
      LogConcat(if returned.Some? then [returned.value] else [], Returns(next, events[1..]));
    }
  }

  /** First-in first-out and exactly once: over every run of a ring that has just been opened, the
      packets that `ReceiveNext` returned, followed by those that can still be got out of the blocks not
      yet handed back, are the packets of the blocks that the kernel filled. */
  lemma {:induction false} ExactlyOnceFifo(blocks: seq<Block>, events: seq<Event>)
    requires blocks != []
    ensures var start := InitialSystem(blocks); var end := Run(start, events);
            && end.released <= |end.filled|
            && end.filled == Accepted(start, events)
            && Received(Returns(start, events)) + Pending(end) == AllPackets(Accepted(start, events))
  {
    hide Invariant;
    hide Step;
    hide Pending;
    hide AllPackets;
    var start := InitialSystem(blocks);
    InitialInvariant(blocks);
    RunKeepsInvariant(start, events);
    InvariantFacts(Run(start, events));
    HistoryIsFaithful(start, events);
    assert [] + Received(Returns(start, events)) == Received(Returns(start, events));
    assert [] + Accepted(start, events) == Accepted(start, events);
  }

  /** Damaged blocks cost one error each: over every run the error counter is the number of error
      returns, plus the damaged blocks among those handed back, plus one while a damaged block that has
      been given up waits to be handed back. */
  lemma {:induction false} DamageIsCountedOnce(blocks: seq<Block>, events: seq<Event>)
    requires blocks != []
    ensures var start := InitialSystem(blocks); var end := Run(start, events);
            && end.released <= |Accepted(start, events)|
            && end.ring.nonFatalReceiveErrors
               == ErrorReturns(Returns(start, events)) + DamagedBlocks(Accepted(start, events)[..end.released])
                  + CurrentCounted(end.ring)
  {
    hide Invariant;
    hide Step;
    hide DamagedBlocks;
    hide CurrentCounted;
    var start := InitialSystem(blocks);
    InitialInvariant(blocks);
    RunKeepsInvariant(start, events);
    InvariantFacts(Run(start, events));
    HistoryIsFaithful(start, events);
    assert [] + Accepted(start, events) == Accepted(start, events);
  }

  /** In every reachable state an active block is owned by user space, the position in it is within its
      packet count, and while packets remain the next header fits: the check for that in `ReceiveNext`
      never fails, so a packet return or the checks of the header's contents decide every such step. */
  lemma {:induction false} NextHeaderAlwaysFits(blocks: seq<Block>, events: seq<Event>)
    requires blocks != []
    ensures var s := Run(InitialSystem(blocks), events).ring;
            s.currentBlockActive ==>
              && s.Current().user
              && s.currentBlockPacketIndex <= s.currentBlockPacketCount == s.Current().block.numPackets
              && (s.currentBlockPacketIndex < s.currentBlockPacketCount ==>
                    HasBytes(s.Current().block.memory, s.currentPacketOffset, PACKET_HEADER_SIZE))
  {
    hide Invariant;
    hide Step;
    InitialInvariant(blocks);
    RunKeepsInvariant(InitialSystem(blocks), events);
    InvariantFacts(Run(InitialSystem(blocks), events));
  }

  // ---------------------------------------------------------------------------------------------
  // One return

  /** A `Packet` return takes the head of what is pending; any other return takes and changes nothing in
      the ring. `Interrupted` is returned only when stopping was requested, `Timeout` only when not. */
  lemma {:induction false} ReturnTakesHead(sys: System, world: World)
    requires Invariant(sys)
    requires SystemConsume(sys, world).1.Some?
    ensures var (next, returned) := SystemConsume(sys, world);
            && next.ring.pc == Top && next.released == sys.released <= |sys.filled| == |next.filled|
            && next.ring.slots == sys.ring.slots && next.ring.currentBlockIndex == sys.ring.currentBlockIndex
            && (returned.value.status == Packet <==> returned.value.packet.Some?)
            && (returned.value.status == Packet ==> Pending(sys) == [returned.value.packet.value] + Pending(next))
            && (returned.value.status != Packet ==> Pending(sys) == Pending(next) && next.delivered == sys.delivered)
            && (returned.value.status == Interrupted ==> world.stopRequested)
            && (returned.value.status == Timeout ==> !world.stopRequested)
  {
    hide Invariant;
    hide Ownership;
    hide Pending;
    hide Consume;
    hide Readable;
    hide PacketAt;
    hide Advance;
    hide BadStart;
    InvariantFacts(sys);
    ReturnShape(sys.ring, world);
    var next := SystemConsume(sys, world).0;
    if Consume(sys.ring, world).1.value.status == Packet {
      AdvanceFrame(sys.ring);
      PendingAfterPacket(sys, next);
    } else {
      SamePending(sys, next);
    }
  }

  /** When a step returns, and what. A packet, exactly if stopping is not requested at the top of the loop and the
      active block still has one; anything else only while the block is awaited, or because of the stop flag. */
  lemma {:induction false} ReturnsExactly(sys: System, world: World)
    requires Invariant(sys)
    ensures sys.ring.WellFormed()
    ensures var s, returned := sys.ring, SystemConsume(sys, world).1;
            var awaiting := s.pc == Waiting && !s.Current().user;
            && (returned == Some(Return(Interrupted, None))
                <==> world.stopRequested
                     && (s.pc == Top || (awaiting && (world.poll.PollInterrupted? || world.poll.PollTimeout?))))
            && (returned == Some(Return(Timeout, None))
                <==> !world.stopRequested && awaiting && world.poll.PollTimeout?)
            && (returned == Some(Return(Error, None))
                <==> awaiting && (world.poll.PollFailed? || world.poll.PollSocketError?))
            && (returned.Some? && returned.value.status == Packet
                <==> s.pc == Top && !world.stopRequested && s.currentBlockActive
                     && Chain(s.Current().block, s.currentBlockPacketIndex, s.currentPacketOffset) != [])
  {
    hide Invariant;
    hide Ownership;
    hide Fifo;
    hide Accounting;
    hide Readable;
    hide PacketAt;
    hide HasNext;
    hide Activate;
    hide Discard;
    hide Release;
    hide Advance;
    InvariantFacts(sys);
  }

  /** A step that returns either advances past a readable packet or leaves the ring where it is. */
  lemma {:induction false} ReturnShape(s: RingState, world: World)
    requires s.WellFormed() && Consume(s, world).1.Some?
    ensures var (next, returned) := Consume(s, world);
            && next.pc == Top
            && (returned.value.status == Interrupted ==> world.stopRequested)
            && (returned.value.status == Timeout ==> !world.stopRequested)
            && if returned.value.status == Packet then
                 && s.pc == Top && s.currentBlockActive && s.currentBlockPacketIndex < s.currentBlockPacketCount
                 && HasBytes(s.Current().block.memory, s.currentPacketOffset, PACKET_HEADER_SIZE)
                 && Readable(s.Current().block, s.currentPacketOffset)
                 && next == Advance(s)
                 && returned.value.packet == Some(PacketAt(s.Current().block, s.currentPacketOffset))
               else
                 && next == s.(pc := Top, nonFatalReceiveErrors := next.nonFatalReceiveErrors)
                 && returned.value.packet == None
  {
    hide Readable;
    hide PacketAt;
    hide Advance;
    hide Activate;
    hide Discard;
    hide Release;
  }

  /** Advancing takes the first pending packet. */
  lemma {:induction false} PendingAfterPacket(sys: System, next: System)
    requires sys.ring.WellFormed() && sys.released < |sys.filled| && sys.ring.currentBlockActive
    requires var s := sys.ring;
             && s.currentBlockPacketCount == s.Current().block.numPackets
             && s.currentBlockPacketIndex < s.currentBlockPacketCount
             && HasBytes(s.Current().block.memory, s.currentPacketOffset, PACKET_HEADER_SIZE)
             && Readable(s.Current().block, s.currentPacketOffset)
    requires next.ring == Advance(sys.ring) && next.filled == sys.filled && next.released == sys.released
    ensures next.ring.WellFormed()
    ensures Pending(sys) == [PacketAt(sys.ring.Current().block, sys.ring.currentPacketOffset)] + Pending(next)
  {
    hide AllPackets;
    hide Chain;
    hide Readable;
    hide PacketAt;
    hide Advance;
    var s := sys.ring;
    AdvanceFrame(s);
    AdvanceAlongChain(s);
    var packet := PacketAt(s.Current().block, s.currentPacketOffset);
    var after := Chain(s.Current().block, next.ring.currentBlockPacketIndex, next.ring.currentPacketOffset);
    var later := AllPackets(sys.filled[sys.released + 1..]);
    assert [packet] + after + later == [packet] + (after + later);
  }

  /** What is pending does not depend on where the consumer is in its code, nor on its errors. */
  lemma {:induction false} SamePending(a: System, b: System)
    requires a.ring.WellFormed() && a.released <= |a.filled|
    requires b.filled == a.filled && b.released == a.released
    requires b.ring == a.ring.(pc := b.ring.pc, nonFatalReceiveErrors := b.ring.nonFatalReceiveErrors)
    ensures b.ring.WellFormed() && Pending(a) == Pending(b)
  {
    hide AllPackets;
    hide Chain;
  }

  /** The packet offsets of a block strictly increase from one return to the next. */
  lemma {:induction false} OffsetsIncrease(sys: System, world: World)
    requires Invariant(sys) && SystemConsume(sys, world).1.Some? && SystemConsume(sys, world).1.value.status == Packet
    ensures var s, next := sys.ring, SystemConsume(sys, world).0.ring;
            && s.currentBlockActive && next.currentBlockActive
            && s.currentBlockPacketIndex < next.currentBlockPacketIndex
            && (next.currentBlockPacketIndex < next.currentBlockPacketCount ==>
                  s.currentPacketOffset < next.currentPacketOffset)
  {
    hide Invariant;
    hide Ownership;
    hide Chain;
    hide Readable;
    hide PacketAt;
    hide Advance;
    hide BadStart;
    InvariantFacts(sys);
    AdvanceFrame(sys.ring);
    AdvanceKeepsBounds(sys.ring);
  }

  function FillEvents(blocks: seq<Block>): seq<Event> {
    seq(|blocks|, i requires 0 <= i < |blocks| => KernelFills(blocks[i]))
  }

  /** Whatever the kernel does, it leaves alone a block that is owned by user space. */
  lemma {:induction false} FillsLeaveUserBlocks(sys: System, blocks: seq<Block>, at: nat)
    requires sys.ring.WellFormed() && at < |sys.ring.slots| && sys.ring.slots[at].user
    ensures var end := Run(sys, FillEvents(blocks)).ring; at < |end.slots| && end.slots[at] == sys.ring.slots[at]
    decreases |blocks|
  {
    if blocks != [] {
      assert FillEvents(blocks)[1..] == FillEvents(blocks[1..]);
      FillsLeaveUserBlocks(SystemFill(sys, blocks[0]), blocks[1..], at);
    }
  }

  /** The view that `ReceiveNext` returns lies inside one block that is owned by user space, and stays so,
      byte for byte, until `ReceiveNext` is called again, whatever the kernel fills meanwhile. */
  lemma {:induction false} ReturnedViewStaysIntact(
    sys: System, world: World, packet: CapturedPacket, blocks: seq<Block>)
    requires Invariant(sys) && SystemConsume(sys, world).1 == Some(Return(Packet, Some(packet)))
    ensures var later := Run(SystemConsume(sys, world).0, FillEvents(blocks)).ring;
            var at, offset := sys.ring.currentBlockIndex, sys.ring.currentPacketOffset;
            && at < |later.slots| && later.slots[at] == sys.ring.slots[at] && later.slots[at].user
            && HasBytes(later.slots[at].block.memory, offset, PACKET_HEADER_SIZE)
            && Readable(later.slots[at].block, offset)
            && packet == PacketAt(later.slots[at].block, offset)
  {
    hide Invariant;
    hide Ownership;
    hide Chain;
    hide Advance;
    hide BadStart;
    hide Fifo;
    hide Accounting;
    hide PacketAt;
    hide Readable;
    InvariantFacts(sys);
    AdvanceFrame(sys.ring);
    FillsLeaveUserBlocks(SystemConsume(sys, world).0, blocks, sys.ring.currentBlockIndex);
  }

  // ---------------------------------------------------------------------------------------------
  // The ring goes round

  lemma {:induction false} NextModulo(i: nat, n: nat)
    requires n > 0
    ensures NextIndex(i % n, n) == (i + 1) % n
  {
    if i % n == n - 1 {
      assert i + 1 == n * (i / n + 1);
      MultipleModulo(n, i / n + 1, 0);
      MultipleModulo(n, 1, 0);
    } else {
      assert i + 1 == n * (i / n) + (i % n + 1);
      MultipleModulo(n, i / n, i % n + 1);
      MultipleModulo(n, 0, i % n + 1);
    }
  }

  lemma {:induction false} MultipleModulo(n: nat, q: nat, r: nat)
    requires r < n
    ensures (n * q + r) % n == r
  {
    var x := n * q + r;
    assert x == n * (x / n) + x % n;
    TimesMonotone(n, x / n + 1, q);
    TimesMonotone(n, q + 1, x / n);
  }

  lemma {:induction false} TimesMonotone(n: nat, a: nat, b: nat)
    ensures a <= b ==> n * a <= n * b
  {
    assert n * b == n * a + n * (b - a);
  }

  /** Both parties go round the ring: the consumer is at the block after the last one handed back, the
      kernel at the block after the last one filled. */
  ghost predicate InStep(sys: System) {
    var n := |sys.ring.slots|;
    n > 0 && sys.ring.currentBlockIndex == sys.released % n && sys.ring.kernelIndex == |sys.filled| % n
  }

  lemma {:induction false} ConsumeStaysInStep(sys: System, world: World)
    requires Invariant(sys) && InStep(sys)
    ensures InStep(SystemConsume(sys, world).0)
    ensures |SystemConsume(sys, world).0.ring.slots| == |sys.ring.slots|
  {
    hide Invariant;
    hide Ownership;
    hide Chain;
    hide Readable;
    hide PacketAt;
    hide Advance;
    hide BadStart;
    hide Fifo;
    hide Accounting;
    InvariantFacts(sys);
    NextModulo(sys.released, |sys.ring.slots|);
    var s := sys.ring;
    if s.currentBlockActive && s.currentBlockPacketIndex < s.currentBlockPacketCount {
      AdvanceFrame(s);
    }
  }

  lemma {:induction false} FillStaysInStep(sys: System, block: Block)
    requires sys.ring.WellFormed() && InStep(sys)
    ensures InStep(SystemFill(sys, block))
    ensures |SystemFill(sys, block).ring.slots| == |sys.ring.slots|
  {
    hide NextIndex;
    NextModulo(|sys.filled|, |sys.ring.slots|);
  }

  lemma {:induction false} StepStaysInStep(sys: System, event: Event)
    requires Invariant(sys) && InStep(sys)
    ensures InStep(Step(sys, event).0)
    ensures |Step(sys, event).0.ring.slots| == |sys.ring.slots|
  {
    hide Invariant;
    hide InStep;
    hide SystemFill;
    hide SystemConsume;
    InvariantFacts(sys);
    match event
    case KernelFills(block) => FillStaysInStep(sys, block);
    case ConsumerSteps(world) => ConsumeStaysInStep(sys, world);
  }

  lemma {:induction false} RunStaysInStep(sys: System, events: seq<Event>)
    requires Invariant(sys) && InStep(sys)
    ensures InStep(Run(sys, events))
    ensures |Run(sys, events).ring.slots| == |sys.ring.slots|
    ensures Invariant(Run(sys, events)) && |Run(sys, events).filled| - Run(sys, events).released <= |sys.ring.slots|
    decreases |events|
  {
    hide Invariant;
    hide InStep;
    hide Step;
    InvariantFacts(sys);
    if events != [] {
      StepKeepsInvariant(sys, events[0]);
      StepStaysInStep(sys, events[0]);
      RunStaysInStep(Step(sys, events[0]).0, events[1..]);
    } else {
      OutstandingFits(sys);
    }
  }

  /** Round and round: after every run the consumer has handed back the first `released` of the blocks
      filled, in the order of the ring, and never lags the kernel by more than the ring holds. */
  lemma {:induction false} RingGoesRound(blocks: seq<Block>, events: seq<Event>)
    requires blocks != []
    ensures var end := Run(InitialSystem(blocks), events);
            && end.ring.currentBlockIndex == end.released % |blocks|
            && end.ring.kernelIndex == |end.filled| % |blocks|
            && end.released <= |end.filled| <= end.released + |blocks|
  {
    hide Invariant;
    hide Step;
    InitialInvariant(blocks);
    RunStaysInStep(InitialSystem(blocks), events);
    InvariantFacts(Run(InitialSystem(blocks), events));
  }

  lemma {:induction false} OutstandingFits(sys: System)
    requires Invariant(sys)
    ensures sys.ring.WellFormed() && |sys.filled| - sys.released <= |sys.ring.slots|
  {
  }

  // ---------------------------------------------------------------------------------------------
  // Progress

  /** A bound on the consumer's steps for some blocks that it has not begun. */
  function TotalWork(blocks: seq<Block>): nat {
    if blocks == [] then 0 else blocks[0].numPackets + 4 + TotalWork(blocks[1..])
  }

  /** A bound on the consumer's steps until the first `goal` of the blocks filled are handed back. */
  function Work(sys: System, goal: nat): nat
    requires sys.ring.WellFormed() && sys.released <= |sys.filled| && goal <= |sys.filled|
  {
    var s := sys.ring;
    if sys.released >= goal then 0
    else
      TotalWork(sys.filled[sys.released + 1..goal])
      + (if s.currentBlockActive then Max(s.currentBlockPacketCount - s.currentBlockPacketIndex, 0) + 1
         else
           s.Current().block.numPackets
           + match s.pc
             case Top => 4
             case Waiting => 3
             case Ready => 2)
  }

  lemma {:induction false} HandBackShrinksWork(sys: System, next: System, goal: nat)
    requires sys.ring.WellFormed() && next.ring.WellFormed() && sys.released < goal <= |sys.filled|
    requires next.filled == sys.filled && next.released == sys.released + 1
    requires !next.ring.currentBlockActive && next.ring.pc == Top
    requires next.released < |next.filled| ==> next.ring.Current().block == next.filled[next.released]
    ensures Work(next, goal) < Work(sys, goal)
  {
    if next.released < goal {
      assert sys.filled[sys.released + 1..goal][0] == sys.filled[sys.released + 1];
      assert sys.filled[sys.released + 1..goal][1..] == sys.filled[sys.released + 2..goal];
    }
  }

  /** Unless it is asked to stop, the consumer gets on with the blocks it has, whatever its polls say. */
  lemma {:induction false} WorkDecreases(sys: System, world: World, goal: nat)
    requires Invariant(sys) && !world.stopRequested && sys.released < goal <= |sys.filled|
    ensures var next := SystemConsume(sys, world).0;
            && Invariant(next) && next.filled == sys.filled
            && next.ring.WellFormed() && next.released <= |next.filled|
            && Work(next, goal) < Work(sys, goal)
  {
    hide Invariant;
    hide Ownership;
    hide Chain;
    hide Readable;
    hide PacketAt;
    hide Advance;
    hide BadStart;
    hide Fifo;
    hide Accounting;
    hide TotalWork;
    InvariantFacts(sys);
    ConsumeKeepsInvariant(sys, world);
    var s, next := sys.ring, SystemConsume(sys, world).0;
    InvariantFacts(next);
    if s.currentBlockActive && s.currentBlockPacketIndex < s.currentBlockPacketCount {
      AdvanceFrame(s);
      AdvanceKeepsBounds(s);
    }
    if next.released == sys.released + 1 {
      HandBackShrinksWork(sys, next, goal);
    }
  }

  /** A fill adds no work towards a goal that was already filled. */
  lemma {:induction false} FillAddsNoWork(sys: System, block: Block, goal: nat)
    requires Invariant(sys) && goal <= |sys.filled|
    requires sys.ring.WellFormed() && sys.released <= |sys.filled|
    ensures var next := SystemFill(sys, block);
            && next.ring.WellFormed() && next.released == sys.released && sys.filled <= next.filled
            && Work(next, goal) == Work(sys, goal)
  {
    hide Invariant;
    hide Ownership;
    hide Fifo;
    hide Accounting;
    hide TotalWork;
    InvariantFacts(sys);
    if sys.released < goal {
      OwnershipFacts(sys);
      var next := SystemFill(sys, block);
      assert next.filled[sys.released + 1..goal] == sys.filled[sys.released + 1..goal];
    }
  }

  /** How many steps of the consumer a run has. */
  function ConsumerStepsIn(events: seq<Event>): nat {
    if events == [] then 0 else (if events[0].ConsumerSteps? then 1 else 0) + ConsumerStepsIn(events[1..])
  }

  /** The consumer is never asked to stop. */
  predicate NeverStopped(events: seq<Event>) {
    forall i :: 0 <= i < |events| && events[i].ConsumerSteps? ==> !events[i].world.stopRequested
  }

  /** A step gets no further away from a goal, and a step of the consumer, unless asked to stop, closer. */
  lemma {:induction false} StepTowards(sys: System, event: Event, goal: nat)
    requires Invariant(sys) && sys.ring.WellFormed() && sys.released <= |sys.filled| && goal <= |sys.filled|
    requires event.ConsumerSteps? ==> !event.world.stopRequested
    ensures var next := Step(sys, event).0;
            && Invariant(next) && next.ring.WellFormed() && next.released <= |next.filled|
            && sys.filled <= next.filled && sys.released <= next.released
            && Work(next, goal) <= Max(Work(sys, goal) - (if event.ConsumerSteps? then 1 else 0), 0)
  {
    hide Invariant;
    hide Work;
    hide SystemConsume;
    hide SystemFill;
    StepKeepsInvariant(sys, event);
    InvariantFacts(Step(sys, event).0);
    match event {
      case KernelFills(block) =>
        FillAddsNoWork(sys, block, goal);
      case ConsumerSteps(world) =>
        ConsumeOnlyReleases(sys, world);
        if sys.released < goal {
          WorkDecreases(sys, world, goal);
        } else {
          NoWorkLeft(sys, goal);
          NoWorkLeft(SystemConsume(sys, world).0, goal);
        }
    }
  }

  lemma {:induction false} NoWorkLeft(sys: System, goal: nat)
    requires sys.ring.WellFormed() && sys.released <= |sys.filled| && goal <= |sys.filled|
    ensures sys.released >= goal <==> Work(sys, goal) == 0
  {
  }

  lemma {:induction false} ConsumeOnlyReleases(sys: System, world: World)
    requires sys.ring.WellFormed()
    ensures var next := SystemConsume(sys, world).0; next.filled == sys.filled && next.released >= sys.released
  {
    hide Consume;
  }

  /** Over any interleaving in which the consumer is not asked to stop and takes as many steps as there is
      work towards a goal, whatever the kernel fills in between and however the polls end, the goal is
      reached. */
  lemma {:induction false} GoalIsReached(sys: System, events: seq<Event>, goal: nat)
    requires Invariant(sys) && NeverStopped(events)
    requires sys.ring.WellFormed() && sys.released <= |sys.filled| && goal <= |sys.filled|
    requires Work(sys, goal) <= ConsumerStepsIn(events)
    ensures var end := Run(sys, events);
            && Invariant(end) && sys.filled <= end.filled && goal <= end.released <= |end.filled|
    decreases |events|
  {
    hide Invariant;
    hide Work;
    hide Step;
    if events == [] {
      NoWorkLeft(sys, goal);
    } else {
      StepTowards(sys, events[0], goal);
      GoalIsReached(Step(sys, events[0]).0, events[1..], goal);
    }
  }

  /** Everything that was filled gets delivered: within a bound known beforehand of steps of a consumer that
      is not asked to stop, whatever the kernel fills meanwhile and however the polls end, every block
      filled so far is handed back, and the packets of all of them, in order, are the first ones returned. If
      nothing more was filled, they are all, and every damaged block is on the account. */
  lemma {:induction false} EverythingIsDelivered(sys: System, events: seq<Event>)
    requires Invariant(sys) && NeverStopped(events)
    requires sys.ring.WellFormed() && sys.released <= |sys.filled|
    requires Work(sys, |sys.filled|) <= ConsumerStepsIn(events)
    ensures var end := Run(sys, events);
            && sys.filled <= end.filled && |sys.filled| <= end.released <= |end.filled|
            && AllPackets(sys.filled) <= end.delivered
            && (end.filled == sys.filled ==>
                  && end.delivered == AllPackets(sys.filled)
                  && end.ring.nonFatalReceiveErrors == end.pollErrors + DamagedBlocks(sys.filled))
  {
    hide Invariant;
    hide Work;
    hide AllPackets;
    hide DamagedBlocks;
    GoalIsReached(sys, events, |sys.filled|);
    var end := Run(sys, events);
    InvariantFacts(end);
    ReleasedAreDelivered(end);
    if end.filled == sys.filled {
      Drained(end);
    } else {
      assert end.filled[..end.released] == sys.filled + end.filled[|sys.filled|..end.released];
    }
    AllPacketsConcat(sys.filled, end.filled[|sys.filled|..end.released]);
    assert sys.filled + end.filled[|sys.filled|..end.released] == end.filled[..end.released];
  }

  /** The packets of the blocks handed back have been returned. */
  lemma {:induction false} ReleasedAreDelivered(sys: System)
    requires Invariant(sys) && sys.released <= |sys.filled|
    ensures AllPackets(sys.filled[..sys.released]) <= sys.delivered
  {
    hide Invariant;
    hide Ownership;
    hide AllPackets;
    hide Pending;
    InvariantFacts(sys);
    PendingIsOutstanding(sys);
    var before, after := sys.filled[..sys.released], sys.filled[sys.released..];
    assert before + after == sys.filled;
    AllPacketsConcat(before, after);
    PrefixByLength(AllPackets(before), AllPackets(after), sys.delivered, Pending(sys));
  }

  lemma {:induction false} PrefixByLength<T>(a: seq<T>, b: seq<T>, c: seq<T>, d: seq<T>)
    requires a + b == c + d && |d| <= |b|
    ensures a <= c
  {
    assert |a| <= |c|;
    assert c == (c + d)[..|c|] && a == (a + b)[..|a|];
    assert (c + d)[..|c|][..|a|] == (a + b)[..|a|];
  }

  /** What is pending is no more than the blocks not yet handed back hold. */
  lemma {:induction false} PendingIsOutstanding(sys: System)
    requires Invariant(sys) && sys.ring.WellFormed() && sys.released <= |sys.filled|
    ensures |Pending(sys)| <= |AllPackets(sys.filled[sys.released..])|
  {
    hide Invariant;
    hide Ownership;
    hide AllPackets;
    hide PacketsOf;
    hide Chain;
    hide Fifo;
    hide BadStart;
    InvariantFacts(sys);
    var s := sys.ring;
    if s.currentBlockActive && sys.released < |sys.filled| {
      HeadOfPending(sys.filled, sys.released);
      ChainEnd(s.Current().block, s.currentBlockPacketIndex, s.currentPacketOffset);
    }
  }

  /** With every block handed back, all packets have been returned. */
  lemma {:induction false} Drained(sys: System)
    requires Invariant(sys) && sys.ring.WellFormed() && sys.released == |sys.filled|
    ensures sys.delivered == AllPackets(sys.filled)
    ensures sys.ring.nonFatalReceiveErrors == sys.pollErrors + DamagedBlocks(sys.filled)
  {
    hide Invariant;
    hide Ownership;
    hide Chain;
    hide Damaged;
    InvariantFacts(sys);
    assert sys.filled[|sys.filled|..] == [];
    assert sys.delivered + [] == sys.delivered;
    assert sys.filled[..|sys.filled|] == sys.filled;
  }

  // ---------------------------------------------------------------------------------------------
  // What an undamaged block is

  /** Readable packet headers at increasing offsets, each pointing to the next. */
  ghost predicate LaidOut(block: Block, offsets: seq<nat>) {
    && (forall k :: 0 <= k < |offsets| ==>
          HasBytes(block.memory, offsets[k], PACKET_HEADER_SIZE) && Readable(block, offsets[k]))
    && (forall k :: 0 <= k < |offsets| - 1 ==>
          offsets[k] < offsets[k + 1] == offsets[k] + block.HeaderAt(offsets[k]).nextOffset)
  }

  lemma {:induction false} LaidOutTail(block: Block, offsets: seq<nat>)
    requires LaidOut(block, offsets) && offsets != []
    ensures LaidOut(block, offsets[1..])
    ensures HasBytes(block.memory, offsets[0], PACKET_HEADER_SIZE) && Readable(block, offsets[0])
    ensures |offsets| > 1 ==>
              && HasBytes(block.memory, offsets[1], PACKET_HEADER_SIZE)
              && offsets[0] < offsets[1] == offsets[0] + block.HeaderAt(offsets[0]).nextOffset
  {
    hide Readable;
    var tail := offsets[1..];
    forall k | 0 <= k < |tail|
      ensures tail[k] == offsets[k + 1]
    {
    }
  }

  function PacketsAt(block: Block, offsets: seq<nat>): (packets: seq<CapturedPacket>)
    requires LaidOut(block, offsets)
    ensures |packets| == |offsets|
  {
    if offsets == [] then []
    else
      LaidOutTail(block, offsets);
      [PacketAt(block, offsets[0])] + PacketsAt(block, offsets[1..])
  }

  lemma {:induction false} ChainOfLayout(block: Block, i: nat, offsets: seq<nat>)
    requires LaidOut(block, offsets) && offsets != [] && i + |offsets| == block.numPackets
    ensures Chain(block, i, offsets[0]) == PacketsAt(block, offsets)
    decreases |offsets|
  {
    hide Readable;
    hide PacketAt;
    hide HasNext;
    hide Chain;
    hide LaidOut;
    LaidOutTail(block, offsets);
    ChainStep(block, i, offsets[0]);
    if |offsets| > 1 {
      Follow(block, offsets[0], offsets[1]);
      ChainOfLayout(block, i + 1, offsets[1..]);
    }
  }

  lemma {:induction false} Follow(block: Block, offset: nat, next: nat)
    requires HasBytes(block.memory, offset, PACKET_HEADER_SIZE) && HasBytes(block.memory, next, PACKET_HEADER_SIZE)
    requires offset < next
    requires next == offset + block.HeaderAt(offset).nextOffset
    ensures HasNext(block, offset)
  {
  }

  lemma {:induction false} ExtendLayout(block: Block, offset: nat, offsets: seq<nat>)
    requires HasBytes(block.memory, offset, PACKET_HEADER_SIZE) && Readable(block, offset)
    requires LaidOut(block, offsets)
    requires offsets == [] || offset < offsets[0] == offset + block.HeaderAt(offset).nextOffset
    ensures LaidOut(block, [offset] + offsets)
  {
    hide Readable;
  }

  lemma {:induction false} EmptyLayout(block: Block)
    ensures LaidOut(block, [])
  {
  }

  lemma {:induction false} ChainStart(block: Block, i: nat, offset: nat)
    ensures Chain(block, i, offset) != [] ==>
              HasBytes(block.memory, offset, PACKET_HEADER_SIZE) && Readable(block, offset) && i < block.numPackets
  {
    hide Readable;
  }

  lemma {:induction false} ChainIsBounded(block: Block, i: nat, offset: nat)
    ensures i < block.numPackets ==> |Chain(block, i, offset)| <= block.numPackets - i
    decreases block.numPackets - i
  {
    hide Readable;
    hide PacketAt;
    hide HasNext;
    hide Chain;
    ChainStart(block, i, offset);
    if Chain(block, i, offset) != [] {
      ChainStep(block, i, offset);
      ChainIsBounded(block, i + 1, offset + block.HeaderAt(offset).nextOffset);
    }
  }

  lemma {:induction false} LayoutOfChain(block: Block, i: nat, offset: nat) returns (offsets: seq<nat>)
    requires i < block.numPackets && |Chain(block, i, offset)| == block.numPackets - i
    ensures LaidOut(block, offsets) && |offsets| == block.numPackets - i && offsets[0] == offset
    decreases block.numPackets - i
  {
    hide Readable;
    hide PacketAt;
    hide HasNext;
    hide LaidOut;
    hide Chain;
    ChainStart(block, i, offset);
    ChainStep(block, i, offset);
    if i + 1 < block.numPackets {
      NextFits(block, offset);
      var rest := LayoutOfChain(block, i + 1, offset + block.HeaderAt(offset).nextOffset);
      ExtendLayout(block, offset, rest);
      offsets := [offset] + rest;
    } else {
      EmptyLayout(block);
      ExtendLayout(block, offset, []);
      offsets := [offset] + [];
    }
  }

  /** A block is undamaged exactly when the packets it announces are laid out in it from its first offset
      on; then the packets that the consumer gets out of it are those, all of them and in order. */
  lemma {:induction false} UndamagedIffLaidOut(block: Block)
    requires block.numPackets > 0
    ensures !Damaged(block) <==>
            && !BadStart(block)
            && exists offsets :: LaidOut(block, offsets) && |offsets| == block.numPackets
                                 && offsets[0] == block.offsetToFirstPacket
    ensures forall offsets ::
              !BadStart(block) && LaidOut(block, offsets) && |offsets| == block.numPackets
              && offsets[0] == block.offsetToFirstPacket
              ==> PacketsOf(block) == PacketsAt(block, offsets)
  {
    hide Readable;
    hide PacketAt;
    hide PacketsAt;
    hide HasNext;
    hide BadStart;
    hide Chain;
    hide LaidOut;
    if !Damaged(block) && !BadStart(block) {
      ChainIsBounded(block, 0, block.offsetToFirstPacket);
      var offsets := LayoutOfChain(block, 0, block.offsetToFirstPacket);
    }
    forall offsets |
      !BadStart(block) && LaidOut(block, offsets) && |offsets| == block.numPackets
      && offsets[0] == block.offsetToFirstPacket
      ensures PacketsOf(block) == PacketsAt(block, offsets) && |PacketsOf(block)| == block.numPackets
    {
      ChainOfLayout(block, 0, offsets);
    }
  }
}
