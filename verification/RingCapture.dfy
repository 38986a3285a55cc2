/** The consumer of the TPACKET_V3 ring as the object that keeps its position and writes the status
    words (src/capture/AfPacketTpacketV3Capture.cpp). The outside world is a finite schedule: before each
    pass of a loop the kernel may fill blocks, and the pass sees a stop flag and, if it polls, an outcome.
    A call of `ReceiveNext` whose schedule ends before it returns is one that is still running. */
module RingCapture {
  import opened Bytes
  import opened Policy
  import opened RingMachine

  /** What happens around one pass of a loop of the consumer. */
  datatype Moment = Moment(fills: seq<Block>, world: World)

  function KernelRuns(s: RingState, fills: seq<Block>): (next: RingState)
    requires s.WellFormed()
    ensures next.WellFormed()
    ensures |next.slots| == |s.slots|
    ensures next == s.(slots := next.slots, kernelIndex := next.kernelIndex)
    decreases |fills|
  {
    if fills == [] then s else KernelRuns(Fill(s, fills[0]), fills[1..])
  }

  /** How a call ends: where it leaves the ring, what it returns (`None` if the schedule ended first) and
      how many moments it has used. */
  datatype Outcome = Outcome(end: RingState, returned: Option<Return>, used: nat)

  /** A call that stands at `s`, over a schedule, as steps of the machine. */
  function Receive(s: RingState, moments: seq<Moment>): (o: Outcome)
    requires s.WellFormed()
    ensures o.end.WellFormed() && o.used <= |moments|
    ensures o.returned.Some? ==> o.end.pc == Top
    decreases |moments|
  {
    if moments == [] then Outcome(s, None, 0)
    else
      var (next, returned) := Consume(KernelRuns(s, moments[0].fills), moments[0].world);
      if returned.Some? then Outcome(next, returned, 1)
      else
        var rest := Receive(next, moments[1..]);
        rest.(used := rest.used + 1)
  }

  /** The outcome of a call that has already used `used` moments and stands at `s`. */
  function ReceiveFrom(s: RingState, moments: seq<Moment>, used: nat): (o: Outcome)
    requires s.WellFormed() && used <= |moments|
    ensures o.end.WellFormed()
  {
    var rest := Receive(s, moments[used..]);
    rest.(used := rest.used + used)
  }

  lemma {:induction false} ReceivePass(s: RingState, moments: seq<Moment>, used: nat)
    requires s.WellFormed() && used < |moments|
    ensures var (next, returned) := Consume(KernelRuns(s, moments[used].fills), moments[used].world);
            ReceiveFrom(s, moments, used)
            == if returned.Some? then Outcome(next, returned, used + 1) else ReceiveFrom(next, moments, used + 1)
  {
    hide Consume;
    hide KernelRuns;
    assert moments[used..][1..] == moments[used + 1..];
  }

  lemma {:induction false} ReceiveEnd(s: RingState, moments: seq<Moment>)
    requires s.WellFormed()
    ensures ReceiveFrom(s, moments, |moments|) == Outcome(s, None, |moments|)
    ensures ReceiveFrom(s, moments, 0) == Receive(s, moments)
  {
    assert moments[0..] == moments;
  }

  class AfPacketTpacketV3Capture {
    /** The mapped ring, shared with the kernel. */
    const slots: array<Slot>
    /** Where the kernel fills next. */
    var kernelIndex: nat
    var currentBlockIndex: nat
    var currentBlockPacketIndex: nat
    var currentBlockPacketCount: nat
    var currentPacketOffset: nat
    var currentBlockActive: bool
    var nonFatalReceiveErrors: nat

    ghost predicate Valid()
      reads this
    {
      currentBlockIndex < slots.Length && kernelIndex < slots.Length
    }

    /** The state of the machine, for a consumer that stands at `pc`. */
    ghost function State(pc: Pc): (s: RingState)
      reads this, slots
      ensures Valid() ==> s.WellFormed()
    {
      RingState(
        slots[..], kernelIndex, pc, currentBlockIndex, currentBlockPacketIndex, currentBlockPacketCount,
        currentPacketOffset, currentBlockActive, nonFatalReceiveErrors)
    }

    /** A consumer of a ring that has just been mapped: the kernel owns every block. */
    constructor (ring: array<Slot>)
      requires ring.Length > 0 && forall i :: 0 <= i < ring.Length ==> !ring[i].user
      ensures Valid() && slots == ring
      ensures State(Top)
              == InitialSystem(seq(ring.Length, i requires 0 <= i < ring.Length reads ring => ring[i].block)).ring
    {
      slots := ring;
      kernelIndex := 0;
      currentBlockIndex := 0;
      currentBlockPacketIndex := 0;
      currentBlockPacketCount := 0;
      currentPacketOffset := 0;
      currentBlockActive := false;
      nonFatalReceiveErrors := 0;
    }

    /** The kernel's side: fills blocks in ring order, as long as it owns them. */
    method KernelFills(blocks: seq<Block>, ghost pc: Pc)
      requires Valid()
      modifies slots, this`kernelIndex
      ensures Valid() && State(pc) == KernelRuns(old(State(pc)), blocks)
    {
      for i := 0 to |blocks|
        invariant Valid()
        invariant KernelRuns(State(pc), blocks[i..]) == KernelRuns(old(State(pc)), blocks)
      {
        ghost var before := State(pc);
        if !slots[kernelIndex].user {
          slots[kernelIndex] := Slot(true, blocks[i]);
          kernelIndex := (kernelIndex + 1) % slots.Length;
        }
        assert State(pc) == Fill(before, blocks[i]);
        assert blocks[i..][1..] == blocks[i + 1..];
      }
    }

    method ReleaseCurrentBlock(ghost pc: Pc)
      requires Valid()
      modifies this, slots
      ensures Valid() && State(pc) == Release(old(State(pc)))
    {
      slots[currentBlockIndex] := slots[currentBlockIndex].(user := false);
      currentBlockActive := false;
      currentBlockPacketIndex := 0;
      currentBlockPacketCount := 0;
      currentPacketOffset := 0;
      currentBlockIndex := (currentBlockIndex + 1) % slots.Length;
    }

    method DiscardCurrentBlock(ghost pc: Pc)
      requires Valid()
      modifies this, slots
      ensures Valid() && State(pc) == Discard(old(State(pc)))
    {
      nonFatalReceiveErrors := nonFatalReceiveErrors + 1;
      ReleaseCurrentBlock(pc);
    }

    method ActivateCurrentBlock() returns (active: bool)
      requires Valid()
      modifies this, slots
      ensures Valid() && State(Top) == Activate(old(State(Top)))
      ensures active ==> currentBlockActive
    {
      var slot := slots[currentBlockIndex];
      if !slot.user {
        return false;
      }
      if slot.block.numPackets == 0 {
        ReleaseCurrentBlock(Top);
        return false;
      }
      var blockSize := |slot.block.memory|;
      var firstPacketOffset: int := slot.block.offsetToFirstPacket;
      if firstPacketOffset > blockSize || firstPacketOffset + PACKET_HEADER_SIZE > blockSize
         || slot.block.numPackets > blockSize / PACKET_HEADER_SIZE {
        DiscardCurrentBlock(Top);
        return false;
      }
      currentBlockPacketIndex := 0;
      currentBlockPacketCount := slot.block.numPackets;
      currentPacketOffset := firstPacketOffset;
      currentBlockActive := true;
      return true;
    }

    /** Waits for the current block to be handed over. If it returns without, `returned` is what the call
        returns, or `None` if the schedule ended. */
    method WaitForReadyBlock(moments: seq<Moment>, start: nat)
      returns (ready: bool, returned: Option<Return>, used: nat)
      requires Valid() && start <= |moments|
      modifies this, slots
      ensures Valid() && start <= used <= |moments|
      ensures ready ==>
                && returned.None?
                && ReceiveFrom(old(State(Waiting)), moments, start) == ReceiveFrom(State(Ready), moments, used)
      ensures !ready && returned.Some? ==>
                ReceiveFrom(old(State(Waiting)), moments, start) == Outcome(State(Top), returned, used)
      ensures !ready && returned.None? ==>
                && used == |moments|
                && ReceiveFrom(old(State(Waiting)), moments, start) == Outcome(State(Waiting), None, used)
    {
      hide Receive;
      hide ReceiveFrom;
      hide KernelRuns;
      hide Activate;
      hide Release;
      hide Advance;
      hide Readable;
      hide PacketAt;
      ready, returned, used := false, None, start;
      while used < |moments|
        invariant Valid() && start <= used <= |moments| && !ready && returned.None?
        invariant ReceiveFrom(old(State(Waiting)), moments, start) == ReceiveFrom(State(Waiting), moments, used)
      {
        ReceivePass(State(Waiting), moments, used);
        KernelFills(moments[used].fills, Waiting);
        var world := moments[used].world;
        used := used + 1;
        if slots[currentBlockIndex].user {
          ready := true;
          return;
        }
        match world.poll {
          case PollReady =>
          case PollInterrupted =>
            if world.stopRequested {
              returned := Some(Return(Interrupted, None));
              return;
            }
          case PollTimeout =>
            returned := Some(Return(if world.stopRequested then Interrupted else Timeout, None));
            return;
          case PollFailed =>
            nonFatalReceiveErrors := nonFatalReceiveErrors + 1;
            returned := Some(Return(Error, None));
            return;
          case PollSocketError =>
            nonFatalReceiveErrors := nonFatalReceiveErrors + 1;
            returned := Some(Return(Error, None));
            return;
        }
      }
      ReceiveEnd(State(Waiting), moments);
    }

    /** Moves past the packet being returned, whose header says where the next one is. */
    method MoveToNextPacket(headerNextOffset: u32)
      requires Valid() && currentBlockPacketIndex < currentBlockPacketCount
      requires HasBytes(slots[currentBlockIndex].block.memory, currentPacketOffset, PACKET_HEADER_SIZE)
      requires headerNextOffset == slots[currentBlockIndex].block.HeaderAt(currentPacketOffset).nextOffset
      modifies this
      ensures Valid() && State(Top) == Advance(old(State(Top)))
    {
      hide Block.HeaderAt;
      var blockSize := |slots[currentBlockIndex].block.memory|;
      currentBlockPacketIndex := currentBlockPacketIndex + 1;
      if currentBlockPacketIndex < currentBlockPacketCount {
        var nextPacketOffset := currentPacketOffset + headerNextOffset;
        if headerNextOffset == 0 || nextPacketOffset + PACKET_HEADER_SIZE > blockSize {
          nonFatalReceiveErrors := nonFatalReceiveErrors + 1;
          currentBlockPacketIndex := currentBlockPacketCount;
        } else {
          currentPacketOffset := nextPacketOffset;
        }
      }
    }

    /** Takes the next packet of the active block, or gives the block up. */
    method TakePacket() returns (returned: Option<Return>)
      requires Valid() && currentBlockActive && currentBlockPacketIndex < currentBlockPacketCount
      modifies this, slots
      ensures Valid() && (State(Top), returned) == Consume(old(State(Top)), World(false, PollReady))
    {
      hide Advance;
      hide Release;
      hide Discard;
      hide Activate;
      hide Block.HeaderAt;
      hide ConvertNanosecondsToMicroseconds;
      var block, offset := slots[currentBlockIndex].block, currentPacketOffset;
      var blockSize := |block.memory|;
      if offset + PACKET_HEADER_SIZE > blockSize {
        DiscardCurrentBlock(Top);
        return None;
      }
      var header := block.HeaderAt(offset);
      var dataOffset := offset + header.mac;
      var dataEnd := dataOffset + header.snaplen;
      if dataOffset > blockSize || dataEnd > blockSize {
        DiscardCurrentBlock(Top);
        return None;
      }
      if header.snaplen > header.len {
        DiscardCurrentBlock(Top);
        return None;
      }
      var time := header.sec * 1_000_000_000 + ConvertNanosecondsToMicroseconds(header.nsec) * 1000;
      returned := Some(Return(Packet, Some(
        CapturedPacket(block.memory[dataOffset..dataEnd], header.snaplen, header.len, time))));
      MoveToNextPacket(header.nextOffset);
    }

    /** One call: leaves the ring where the machine's steps over the same schedule leave it, and returns
        what they return. */
    method ReceiveNext(moments: seq<Moment>) returns (returned: Option<Return>, used: nat, ghost pc: Pc)
      requires Valid()
      modifies this, slots
      ensures Valid() && Receive(old(State(Top)), moments) == Outcome(State(pc), returned, used)
    {
      hide Receive;
      hide ReceiveFrom;
      hide KernelRuns;
      hide Activate;
      hide Release;
      hide Advance;
      hide Readable;
      hide PacketAt;
      returned, used, pc := None, 0, Top;
      ReceiveEnd(State(Top), moments);
      while used < |moments|
        invariant Valid() && used <= |moments| && pc == Top && returned.None?
        invariant ReceiveFrom(State(Top), moments, used) == Receive(old(State(Top)), moments)
        decreases |moments| - used
      {
        ReceivePass(State(Top), moments, used);
        KernelFills(moments[used].fills, Top);
        var stopRequested := moments[used].world.stopRequested;
        used := used + 1;
        if stopRequested {
          returned := Some(Return(Interrupted, None));
          return;
        }
        if currentBlockActive {
          if currentBlockPacketIndex >= currentBlockPacketCount {
            ReleaseCurrentBlock(Top);
          } else {
            returned := TakePacket();
            if returned.Some? {
              return;
            }
          }
        } else {
          assert ReceiveFrom(State(Waiting), moments, used) == Receive(old(State(Top)), moments);
          var ready;
          ready, returned, used := WaitForReadyBlock(moments, used);
          if !ready {
            if returned.None? {
              pc := Waiting;
            }
            return;
          }
          if used == |moments| {
            pc := Ready;
            ReceiveEnd(State(Ready), moments);
            return;
          }
          ReceivePass(State(Ready), moments, used);
          KernelFills(moments[used].fills, Ready);
          used := used + 1;
          var _ := ActivateCurrentBlock();
        }
      }
      ReceiveEnd(State(Top), moments);
    }
  }
}
