/** Safety and delivery of the ring protocol over all interleavings of the kernel's and the consumer's
    steps: ownership, bounds, first-in first-out delivery of exactly the packets that were filled, and
    the account of damaged blocks. */
module RingProtocol {
  import opened Bytes
  import opened Policy
  import opened RingMachine

  /** The block `j` places after the current one. */
  function SlotAfter(s: RingState, j: nat): Slot
    requires s.WellFormed() && j < |s.slots|
  {
    s.slots[Wrap(s.currentBlockIndex + j, |s.slots|)]
  }

  function Wrap(i: nat, count: nat): nat
    requires i < 2 * count
    ensures Wrap(i, count) < count
  {
    if i < count then i else i - count
  }

  lemma {:induction false} NextIsWrap(i: nat, count: nat)
    requires i < count
    ensures NextIndex(i, count) == Wrap(i + 1, count)
  {
  }

  /** The packets of some blocks, in order. */
  function AllPackets(blocks: seq<Block>): seq<CapturedPacket> {
    if blocks == [] then [] else PacketsOf(blocks[0]) + AllPackets(blocks[1..])
  }

  lemma {:induction false} AllPacketsConcat(a: seq<Block>, b: seq<Block>)
    ensures AllPackets(a + b) == AllPackets(a) + AllPackets(b)
    decreases |a|
  {
    if a == [] {
      assert a + b == b;
    } else {
      assert (a + b)[1..] == a[1..] + b;
      AllPacketsConcat(a[1..], b);
    }
  }

  /** How many of some blocks are damaged. */
  function DamagedBlocks(blocks: seq<Block>): nat {
    if blocks == [] then 0 else DamagedBlocks(blocks[..|blocks| - 1]) + (if Damaged(blocks[|blocks| - 1]) then 1 else 0)
  }

  /** The blocks filled and not yet handed back. */
  function Outstanding(sys: System): seq<Block>
    requires sys.released <= |sys.filled|
  {
    sys.filled[sys.released..]
  }

  /** Ownership: the user-owned blocks are the current one and those after it, in the order they were
      filled, and the kernel fills the first block after them. */
  ghost predicate Ownership(sys: System) {
    var s := sys.ring;
    && s.WellFormed()
    && sys.released <= |sys.filled|
    && |Outstanding(sys)| <= |s.slots|
    && s.kernelIndex == Wrap(s.currentBlockIndex + |Outstanding(sys)|, |s.slots|)
    && (forall j :: 0 <= j < |s.slots| ==> (SlotAfter(s, j).user <==> j < |Outstanding(sys)|))
    && (forall j :: 0 <= j < |Outstanding(sys)| ==> SlotAfter(s, j).block == Outstanding(sys)[j])
  }

  /** Bounds: an active block is owned by user space; the consumer's position is within it, and while
      packets remain the next header fits in it. */
  ghost predicate Bounds(sys: System)
    requires sys.ring.WellFormed()
  {
    var s := sys.ring;
    && (s.pc == Ready ==> s.Current().user)
    && (s.pc != Top ==> !s.currentBlockActive)
    && (s.currentBlockActive ==>
          && s.Current().user
          && s.currentBlockPacketCount == s.Current().block.numPackets
          && s.currentBlockPacketIndex <= s.currentBlockPacketCount
          && !BadStart(s.Current().block)
          && (s.currentBlockPacketIndex < s.currentBlockPacketCount ==>
                HasBytes(s.Current().block.memory, s.currentPacketOffset, PACKET_HEADER_SIZE)))
  }

  /** What is still to be delivered from the blocks filled so far. */
  function Pending(sys: System): seq<CapturedPacket>
    requires sys.ring.WellFormed() && sys.released <= |sys.filled|
  {
    var s := sys.ring;
    if s.currentBlockActive && sys.released < |sys.filled| then
      Chain(s.Current().block, s.currentBlockPacketIndex, s.currentPacketOffset)
      + AllPackets(sys.filled[sys.released + 1..])
    else AllPackets(sys.filled[sys.released..])
  }

  /** Delivery: what was delivered, followed by what is pending, is what was filled. */
  ghost predicate Fifo(sys: System)
    requires sys.ring.WellFormed() && sys.released <= |sys.filled|
  {
    sys.delivered + Pending(sys) == AllPackets(sys.filled)
  }

  /** The damage of the current block has been counted already: the consumer gave up its remaining packets. */
  function CurrentCounted(s: RingState): nat
    requires s.WellFormed()
  {
    if s.currentBlockActive && s.currentBlockPacketIndex >= s.currentBlockPacketCount && Damaged(s.Current().block)
    then 1 else 0
  }

  /** Accounting: besides failed polls, errors count the damaged blocks that were handed back, and the
      current one once it has been given up; while packets remain, none has been lost. */
  ghost predicate Accounting(sys: System)
    requires sys.ring.WellFormed() && sys.released <= |sys.filled|
  {
    var s := sys.ring;
    && s.nonFatalReceiveErrors == sys.pollErrors + DamagedBlocks(sys.filled[..sys.released]) + CurrentCounted(s)
    && (s.currentBlockActive && s.currentBlockPacketIndex < s.currentBlockPacketCount ==>
          |PacketsOf(s.Current().block)|
          == s.currentBlockPacketIndex
             + |Chain(s.Current().block, s.currentBlockPacketIndex, s.currentPacketOffset)|)
  }

  ghost predicate Invariant(sys: System) {
    Ownership(sys) && Bounds(sys) && Fifo(sys) && Accounting(sys)
  }

  // ---------------------------------------------------------------------------------------------
  // Each step keeps the invariant

  lemma {:induction false} InitialInvariant(blocks: seq<Block>)
    requires blocks != []
    ensures Invariant(InitialSystem(blocks))
  {
    var sys := InitialSystem(blocks);
    assert sys.filled[sys.released..] == [];
  }

  /** A kernel-owned block at the kernel's index means that not all blocks are outstanding. */
  lemma {:induction false} RoomToFill(sys: System)
    requires Ownership(sys) && !sys.ring.slots[sys.ring.kernelIndex].user
    ensures |Outstanding(sys)| < |sys.ring.slots|
  {
    assert sys.ring.slots[sys.ring.currentBlockIndex] == SlotAfter(sys.ring, 0);
  }

  lemma {:induction false} FillKeepsOwnership(sys: System, block: Block)
    requires Ownership(sys)
    ensures Ownership(SystemFill(sys, block))
  {
    hide PacketsOf;
    var s, m := sys.ring, |Outstanding(sys)|;
    if !s.slots[s.kernelIndex].user {
      var next := SystemFill(sys, block);
      RoomToFill(sys);
      NextIsWrap(s.kernelIndex, |s.slots|);
      assert Outstanding(next) == Outstanding(sys) + [block];
      forall j | 0 <= j < |s.slots|
        ensures SlotAfter(next.ring, j) == if j == m then Slot(true, block) else SlotAfter(s, j)
      {
      }
    }
  }

  /** A block that the kernel fills adds its packets to the end of what is pending. */
  lemma {:induction false} FillExtendsPending(sys: System, block: Block, next: System)
    requires sys.ring.WellFormed() && next.ring.WellFormed() && sys.released <= |sys.filled|
    requires next.filled == sys.filled + [block] && next.released == sys.released
    requires next.ring.currentBlockActive == sys.ring.currentBlockActive
    requires next.ring.currentBlockPacketIndex == sys.ring.currentBlockPacketIndex
    requires next.ring.currentPacketOffset == sys.ring.currentPacketOffset
    requires sys.ring.currentBlockActive ==> sys.released < |sys.filled| && next.ring.Current() == sys.ring.Current()
    ensures Pending(next) == Pending(sys) + AllPackets([block])
  {
    hide PacketsOf;
    hide Chain;
    hide AllPackets;
    if sys.ring.currentBlockActive {
      assert next.filled[sys.released + 1..] == sys.filled[sys.released + 1..] + [block];
      AllPacketsConcat(sys.filled[sys.released + 1..], [block]);
    } else {
      assert next.filled[sys.released..] == sys.filled[sys.released..] + [block];
      AllPacketsConcat(sys.filled[sys.released..], [block]);
    }
  }

  lemma {:induction false} FillKeepsFifo(sys: System, block: Block, next: System)
    requires sys.ring.WellFormed() && next.ring.WellFormed() && sys.released <= |sys.filled|
    requires next.filled == sys.filled + [block] && next.released == sys.released
    requires next.delivered == sys.delivered
    requires Pending(next) == Pending(sys) + AllPackets([block]) && Fifo(sys)
    ensures Fifo(next)
  {
    hide Pending;
    hide AllPackets;
    AllPacketsConcat(sys.filled, [block]);
  }

  lemma {:induction false} FillKeepsInvariant(sys: System, block: Block)
    requires Invariant(sys)
    ensures Invariant(SystemFill(sys, block))
  {
    hide Ownership;
    hide Fifo;
    hide Pending;
    hide Chain;
    hide PacketsOf;
    hide Damaged;
    hide BadStart;
    OwnershipFacts(sys);
    FillKeepsOwnership(sys, block);
    var next := SystemFill(sys, block);
    OwnershipFacts(next);
    if next != sys {
      assert next.filled[..sys.released] == sys.filled[..sys.released];
      FillExtendsPending(sys, block, next);
      FillKeepsFifo(sys, block, next);
    }
  }

  /** What ownership says about the current block. */
  lemma {:induction false} OwnershipFacts(sys: System)
    requires Ownership(sys)
    ensures sys.ring.WellFormed() && sys.released <= |sys.filled|
    ensures sys.ring.Current().user <==> sys.released < |sys.filled|
    ensures sys.ring.Current().user ==> sys.ring.Current().block == sys.filled[sys.released]
    ensures !sys.ring.slots[sys.ring.kernelIndex].user && sys.ring.Current().user ==>
              sys.ring.kernelIndex != sys.ring.currentBlockIndex
  {
    assert SlotAfter(sys.ring, 0) == sys.ring.Current();
  }

  /** Handing back the current block. */
  lemma {:induction false} ReleaseKeepsOwnership(sys: System)
    requires Ownership(sys) && sys.ring.Current().user
    ensures Ownership(sys.(ring := Release(sys.ring), released := sys.released + 1))
  {
    var s := sys.ring;
    OwnershipFacts(sys);
    var next := sys.(ring := Release(s), released := sys.released + 1);
    var n := |s.slots|;
    NextIsWrap(s.currentBlockIndex, n);
    assert Outstanding(next) == Outstanding(sys)[1..];
    forall j | 0 <= j < n
      ensures j < n - 1 ==> SlotAfter(next.ring, j) == SlotAfter(s, j + 1)
      ensures j == n - 1 ==> SlotAfter(next.ring, j) == s.Current().(user := false)
    {
    }
  }

  /** The system after the consumer hands back the current block, with its damage on the account. */
  function HandBack(sys: System, errors: nat): System
    requires sys.ring.WellFormed()
  {
    sys.(ring := Release(sys.ring.(nonFatalReceiveErrors := sys.ring.nonFatalReceiveErrors + errors)),
         released := sys.released + 1)
  }

  /** Handing back a block keeps the invariant if nothing more can be got out of it and its damage, if
      any, is counted exactly once. */
  lemma {:induction false} HandBackKeepsInvariant(sys: System, errors: nat)
    requires Invariant(sys) && sys.ring.Current().user && sys.released < |sys.filled|
    requires Pending(sys) == AllPackets(sys.filled[sys.released + 1..])
    requires CurrentCounted(sys.ring) + errors == if Damaged(sys.ring.Current().block) then 1 else 0
    ensures Invariant(HandBack(sys, errors).(ring := HandBack(sys, errors).ring.(pc := Top)))
  {
    hide PacketsOf;
    hide Chain;
    hide Damaged;
    hide BadStart;
    hide Ownership;
    OwnershipFacts(sys);
    var counted := sys.(ring := sys.ring.(nonFatalReceiveErrors := sys.ring.nonFatalReceiveErrors + errors, pc := Top));
    SameOwnership(sys, counted);
    ReleaseKeepsOwnership(counted);
    var next := HandBack(sys, errors).(ring := HandBack(sys, errors).ring.(pc := Top));
    assert next == counted.(ring := Release(counted.ring), released := counted.released + 1);
    OwnershipFacts(next);
    assert sys.filled[..sys.released + 1][..sys.released] == sys.filled[..sys.released];
  }

  /** Ownership depends only on the ring's blocks and the indices. */
  lemma {:induction false} SameOwnership(a: System, b: System)
    requires Ownership(a) && a.filled == b.filled && a.released == b.released
    requires a.ring.slots == b.ring.slots
    requires a.ring.kernelIndex == b.ring.kernelIndex && a.ring.currentBlockIndex == b.ring.currentBlockIndex
    ensures Ownership(b)
  {
    assert forall j :: 0 <= j < |a.ring.slots| ==> SlotAfter(a.ring, j) == SlotAfter(b.ring, j);
  }

  /** Activating a block. */
  lemma {:induction false} ActivateKeepsInvariant(sys: System, world: World)
    requires Invariant(sys) && sys.ring.pc == Ready
    ensures Invariant(SystemConsume(sys, world).0)
  {
    hide Chain;
    hide PacketsOf;
    hide AllPackets;
    hide Damaged;
    hide Ownership;
    hide BadStart;
    OwnershipFacts(sys);
    var block := sys.ring.Current().block;
    HeadOfPending(sys.filled, sys.released);
    EmptyBlock(block);
    var next := SystemConsume(sys, world).0;
    if block.numPackets == 0 {
      HandBackKeepsInvariant(sys, 0);
      assert next == HandBack(sys, 0).(ring := HandBack(sys, 0).ring.(pc := Top));
    } else if BadStart(block) {
      HandBackKeepsInvariant(sys, 1);
      assert next == HandBack(sys, 1).(ring := HandBack(sys, 1).ring.(pc := Top));
    } else {
      SameOwnership(sys, next);
      FitsAtStart(block);
    }
  }

  lemma {:induction false} HeadOfPending(blocks: seq<Block>, k: nat)
    requires k < |blocks|
    ensures AllPackets(blocks[k..]) == PacketsOf(blocks[k]) + AllPackets(blocks[k + 1..])
    ensures PacketsOf(blocks[k]) == [] ==> AllPackets(blocks[k..]) == AllPackets(blocks[k + 1..])
  {
    hide PacketsOf;
    assert blocks[k..][1..] == blocks[k + 1..];
  }

  lemma {:induction false} EmptyBlock(block: Block)
    ensures block.numPackets == 0 ==> PacketsOf(block) == [] && !Damaged(block)
    ensures BadStart(block) && block.numPackets > 0 ==> PacketsOf(block) == [] && Damaged(block)
  {
  }

  lemma {:induction false} FitsAtStart(block: Block)
    requires !BadStart(block)
    ensures HasBytes(block.memory, block.offsetToFirstPacket, PACKET_HEADER_SIZE)
    ensures PacketsOf(block) == Chain(block, 0, block.offsetToFirstPacket)
  {
  }

  /** What returning a packet does to the consumer: the packet heads its chain, and the chain that is
      left is the one at the consumer's new position. */
  lemma {:induction false} AdvanceAlongChain(s: RingState)
    requires s.WellFormed() && s.currentBlockPacketCount == s.Current().block.numPackets
    requires s.currentBlockPacketIndex < s.currentBlockPacketCount
    requires HasBytes(s.Current().block.memory, s.currentPacketOffset, PACKET_HEADER_SIZE)
    requires Readable(s.Current().block, s.currentPacketOffset)
    ensures Chain(s.Current().block, s.currentBlockPacketIndex, s.currentPacketOffset)
            == [PacketAt(s.Current().block, s.currentPacketOffset)]
               + Chain(s.Current().block, Advance(s).currentBlockPacketIndex, Advance(s).currentPacketOffset)
  {
    hide Readable;
    hide PacketAt;
    hide HasNext;
    hide Chain;
    ChainStep(s.Current().block, s.currentBlockPacketIndex, s.currentPacketOffset);
    ChainEnd(s.Current().block, Advance(s).currentBlockPacketIndex, Advance(s).currentPacketOffset);
  }

  lemma {:induction false} ChainEnd(block: Block, i: nat, offset: nat)
    ensures i >= block.numPackets ==> Chain(block, i, offset) == []
  {
  }

  lemma {:induction false} AdvanceKeepsBounds(s: RingState)
    requires s.WellFormed() && s.currentBlockPacketCount == s.Current().block.numPackets
    requires s.currentBlockPacketIndex < s.currentBlockPacketCount
    requires HasBytes(s.Current().block.memory, s.currentPacketOffset, PACKET_HEADER_SIZE)
    ensures Advance(s).currentBlockPacketIndex <= s.currentBlockPacketCount
    ensures s.currentBlockPacketIndex < Advance(s).currentBlockPacketIndex
    ensures Advance(s).currentBlockPacketIndex < s.currentBlockPacketCount ==>
              && Advance(s).currentBlockPacketIndex == s.currentBlockPacketIndex + 1
              && s.currentPacketOffset < Advance(s).currentPacketOffset
              && HasBytes(s.Current().block.memory, Advance(s).currentPacketOffset, PACKET_HEADER_SIZE)
  {
    NextFits(s.Current().block, s.currentPacketOffset);
  }

  /** How the error counter moves when a packet is returned: it counts a damaged block when its last
      packet is, and nothing otherwise. */
  lemma {:induction false} AdvanceCounts(s: RingState, next: RingState)
    requires s.WellFormed() && s.currentBlockActive && s.currentBlockPacketCount == s.Current().block.numPackets
    requires s.currentBlockPacketIndex < s.currentBlockPacketCount
    requires HasBytes(s.Current().block.memory, s.currentPacketOffset, PACKET_HEADER_SIZE)
    requires next == Advance(s)
    requires |PacketsOf(s.Current().block)|
             == s.currentBlockPacketIndex + 1
                + |Chain(s.Current().block, next.currentBlockPacketIndex, next.currentPacketOffset)|
    ensures next.nonFatalReceiveErrors == s.nonFatalReceiveErrors + CurrentCounted(next)
  {
    hide PacketsOf;
    hide Chain;
    hide HasNext;
    ChainEnd(s.Current().block, next.currentBlockPacketIndex, next.currentPacketOffset);
  }

  /** Returning a packet. */
  lemma {:induction false} DeliverKeepsInvariant(sys: System, world: World)
    requires Invariant(sys) && sys.ring.pc == Top && sys.ring.currentBlockActive && !world.stopRequested
    requires sys.ring.currentBlockPacketIndex < sys.ring.currentBlockPacketCount
    requires Readable(sys.ring.Current().block, sys.ring.currentPacketOffset)
    ensures Invariant(SystemConsume(sys, world).0)
    ensures SystemConsume(sys, world).1 ==
            Some(Return(Packet, Some(PacketAt(sys.ring.Current().block, sys.ring.currentPacketOffset))))
  {
    hide Ownership;
    hide AllPackets;
    hide PacketsOf;
    hide Chain;
    hide BadStart;
    hide Readable;
    hide PacketAt;
    hide Advance;
    hide Activate;
    hide Release;
    hide DamagedBlocks;
    hide Fifo;
    hide Pending;
    hide CurrentCounted;
    OwnershipFacts(sys);
    var s := sys.ring;
    var (next, _) := SystemConsume(sys, world);
    AdvanceFrame(s);
    SameOwnership(sys, next);
    AdvanceAlongChain(s);
    AdvanceKeepsBounds(s);
    DeliverKeepsFifo(sys, next, PacketAt(s.Current().block, s.currentPacketOffset));
    AdvanceCounts(s, next.ring);
    NothingCountedYet(s);
  }

  lemma {:induction false} NothingCountedYet(s: RingState)
    requires s.WellFormed() && s.currentBlockPacketIndex < s.currentBlockPacketCount
    ensures CurrentCounted(s) == 0
  {
  }

  lemma {:induction false} DeliverKeepsFifo(sys: System, next: System, packet: CapturedPacket)
    requires sys.ring.WellFormed() && next.ring.WellFormed() && sys.released < |sys.filled|
    requires next.filled == sys.filled && next.released == sys.released && next.delivered == sys.delivered + [packet]
    requires sys.ring.currentBlockActive && next.ring.currentBlockActive && next.ring.Current() == sys.ring.Current()
    requires Chain(sys.ring.Current().block, sys.ring.currentBlockPacketIndex, sys.ring.currentPacketOffset)
             == [packet]
                + Chain(sys.ring.Current().block, next.ring.currentBlockPacketIndex, next.ring.currentPacketOffset)
    requires Fifo(sys)
    ensures Fifo(next)
  {
    hide Chain;
    hide AllPackets;
    var after := Chain(sys.ring.Current().block, next.ring.currentBlockPacketIndex, next.ring.currentPacketOffset);
    Regroup(sys.delivered, [packet], after, AllPackets(sys.filled[sys.released + 1..]));
  }

  lemma {:induction false} Regroup<T>(a: seq<T>, b: seq<T>, c: seq<T>, d: seq<T>)
    ensures a + (b + c + d) == a + b + (c + d)
  {
  }

  lemma {:induction false} AdvanceFrame(s: RingState)
    requires s.WellFormed() && HasBytes(s.Current().block.memory, s.currentPacketOffset, PACKET_HEADER_SIZE)
    ensures Advance(s) == s.(currentBlockPacketIndex := Advance(s).currentBlockPacketIndex,
                             currentPacketOffset := Advance(s).currentPacketOffset,
                             nonFatalReceiveErrors := Advance(s).nonFatalReceiveErrors)
  {
  }

  lemma {:induction false} NextFits(block: Block, offset: nat)
    requires HasBytes(block.memory, offset, PACKET_HEADER_SIZE)
    ensures HasNext(block, offset) ==>
              HasBytes(block.memory, offset + block.HeaderAt(offset).nextOffset, PACKET_HEADER_SIZE)
              && block.HeaderAt(offset).nextOffset > 0
  {
  }

  /** A readable packet is the first of its chain; without a successor it is the last. */
  lemma {:induction false} ChainStep(block: Block, i: nat, offset: nat)
    requires i < block.numPackets && HasBytes(block.memory, offset, PACKET_HEADER_SIZE) && Readable(block, offset)
    ensures Chain(block, i, offset) ==
            [PacketAt(block, offset)]
            + (if HasNext(block, offset) && i + 1 < block.numPackets
               then Chain(block, i + 1, offset + block.HeaderAt(offset).nextOffset) else [])
  {
    hide Readable;
    hide PacketAt;
    hide HasNext;
    if HasNext(block, offset) && i + 1 >= block.numPackets {
      ChainEnd(block, i + 1, offset + block.HeaderAt(offset).nextOffset);
    }
  }

  /** Giving up a block at a header that cannot be read, or being done with it. */
  lemma {:induction false} FinishKeepsInvariant(sys: System, world: World)
    requires Invariant(sys) && sys.ring.pc == Top && sys.ring.currentBlockActive && !world.stopRequested
    requires sys.ring.currentBlockPacketIndex < sys.ring.currentBlockPacketCount ==>
               !Readable(sys.ring.Current().block, sys.ring.currentPacketOffset)
    ensures Invariant(SystemConsume(sys, world).0)
  {
    hide Ownership;
    hide BadStart;
    hide PacketsOf;
    OwnershipFacts(sys);
    var s := sys.ring;
    var errors := if s.currentBlockPacketIndex < s.currentBlockPacketCount then 1 else 0;
    assert Chain(s.Current().block, s.currentBlockPacketIndex, s.currentPacketOffset) == [];
    assert [] + AllPackets(sys.filled[sys.released + 1..]) == AllPackets(sys.filled[sys.released + 1..]);
    HandBackKeepsInvariant(sys, errors);
    assert SystemConsume(sys, world).0 == HandBack(sys, errors).(ring := HandBack(sys, errors).ring.(pc := Top));
  }

  /** A step that neither returns a packet nor touches a block. */
  lemma {:induction false} IdleKeepsInvariant(sys: System, world: World)
    requires Invariant(sys)
    requires sys.ring.pc == Waiting || (sys.ring.pc == Top && (world.stopRequested || !sys.ring.currentBlockActive))
    ensures Invariant(SystemConsume(sys, world).0)
  {
    hide Ownership;
    hide BadStart;
    hide PacketsOf;
    hide Chain;
    hide Damaged;
    hide AllPackets;
    hide DamagedBlocks;
    hide Advance;
    hide Activate;
    hide Release;
    hide Readable;
    hide PacketAt;
    OwnershipFacts(sys);
    SameOwnership(sys, SystemConsume(sys, world).0);
  }

  lemma {:induction false} ConsumeKeepsInvariant(sys: System, world: World)
    requires Invariant(sys)
    ensures Invariant(SystemConsume(sys, world).0)
  {
    hide SystemConsume;
    hide Fifo;
    hide Accounting;
    hide Ownership;
    OwnershipFacts(sys);
    var s := sys.ring;
    if s.pc == Ready {
      ActivateKeepsInvariant(sys, world);
    } else if s.pc == Waiting || world.stopRequested || !s.currentBlockActive {
      IdleKeepsInvariant(sys, world);
    } else if s.currentBlockPacketIndex < s.currentBlockPacketCount
              && Readable(s.Current().block, s.currentPacketOffset) {
      DeliverKeepsInvariant(sys, world);
    } else {
      FinishKeepsInvariant(sys, world);
    }
  }
}
