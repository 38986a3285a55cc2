/** The TPACKET_V3 ring as a state machine (src/capture/AfPacketTpacketV3Capture.cpp).

    The kernel fills blocks in ring order and hands each to the consumer by its status word. The
    consumer walks the packets of a block and hands the block back. A state holds the shared ring and
    the consumer's fields; `pc` is where the consumer stands in `ReceiveNext`: at the top of its loop,
    in the loop of `WaitForReadyBlock`, or about to activate the block it waited for. */
module RingMachine {
  import opened Bytes
  import opened Policy

  /** sizeof(tpacket3_hdr) */
  const PACKET_HEADER_SIZE: nat := 48

  /** The packet header fields that the consumer reads, at their offsets in `tpacket3_hdr`. */
  datatype PacketHeader = PacketHeader(nextOffset: u32, sec: u32, nsec: u32, snaplen: u32, len: u32, mac: u16)

  /** What the kernel puts into a block: the header fields and the memory of the block. */
  datatype Block = Block(numPackets: u32, offsetToFirstPacket: u32, memory: seq<byte>)
  {
    function HeaderAt(offset: nat): PacketHeader
      requires HasBytes(memory, offset, PACKET_HEADER_SIZE)
    {
      PacketHeader(
        ReadLe32(memory, offset), ReadLe32(memory, offset + 4), ReadLe32(memory, offset + 8),
        ReadLe32(memory, offset + 12), ReadLe32(memory, offset + 16), ReadLe16(memory, offset + 24))
    }
  }

  function ConvertNanosecondsToMicroseconds(nanoseconds: u32): u32 {
    Min(nanoseconds / 1000, 999_999)
  }

  /** A packet's data lies in the block and is no longer than the packet was. */
  predicate Readable(block: Block, offset: nat)
    requires HasBytes(block.memory, offset, PACKET_HEADER_SIZE)
  {
    var header := block.HeaderAt(offset);
    offset + header.mac + header.snaplen <= |block.memory| && header.snaplen <= header.len
  }

  /** The packet that a readable header describes, as a view into the block. */
  function PacketAt(block: Block, offset: nat): CapturedPacket
    requires HasBytes(block.memory, offset, PACKET_HEADER_SIZE) && Readable(block, offset)
  {
    var header := block.HeaderAt(offset);
    var start := offset + header.mac;
    CapturedPacket(
      block.memory[start..start + header.snaplen],
      header.snaplen,
      header.len,
      header.sec * 1_000_000_000 + ConvertNanosecondsToMicroseconds(header.nsec) * 1000)
  }

  /** The header after this one can be followed. */
  predicate HasNext(block: Block, offset: nat)
    requires HasBytes(block.memory, offset, PACKET_HEADER_SIZE)
  {
    var next: int := block.HeaderAt(offset).nextOffset;
    next != 0 && offset + next + PACKET_HEADER_SIZE <= |block.memory|
  }

  /** The packets of a block from its `i`-th on, whose header is at `offset`, up to the first that
      cannot be read or whose successor cannot be found. */
  function Chain(block: Block, i: nat, offset: nat): seq<CapturedPacket>
    decreases block.numPackets - i
  {
    if i >= block.numPackets || !HasBytes(block.memory, offset, PACKET_HEADER_SIZE) || !Readable(block, offset) then []
    else
      [PacketAt(block, offset)]
      + (if HasNext(block, offset) then Chain(block, i + 1, offset + block.HeaderAt(offset).nextOffset) else [])
  }

  /** The block announces packets but its description of them cannot be right. */
  predicate BadStart(block: Block) {
    || !HasBytes(block.memory, block.offsetToFirstPacket, PACKET_HEADER_SIZE)
    || block.numPackets > |block.memory| / PACKET_HEADER_SIZE
  }

  /** The packets that a consumer can get out of a block. */
  function PacketsOf(block: Block): seq<CapturedPacket> {
    if BadStart(block) then [] else Chain(block, 0, block.offsetToFirstPacket)
  }

  /** Not all announced packets can be got out of the block. */
  predicate Damaged(block: Block) {
    |PacketsOf(block)| < block.numPackets
  }

  // ---------------------------------------------------------------------------------------------
  // States and steps

  /** A block of the ring and its status word: owned by user space or by the kernel. */
  datatype Slot = Slot(user: bool, block: Block)

  datatype Pc = Top | Waiting | Ready

  datatype RingState = RingState(
    slots: seq<Slot>,
    kernelIndex: nat,
    pc: Pc,
    currentBlockIndex: nat,
    currentBlockPacketIndex: nat,
    currentBlockPacketCount: nat,
    currentPacketOffset: nat,
    currentBlockActive: bool,
    nonFatalReceiveErrors: nat)
  {
    predicate WellFormed() {
      currentBlockIndex < |slots| && kernelIndex < |slots|
    }

    function Current(): Slot
      requires WellFormed()
    {
      slots[currentBlockIndex]
    }
  }

  datatype Poll = PollReady | PollTimeout | PollInterrupted | PollFailed | PollSocketError

  datatype ReceiveStatus = Packet | Timeout | Interrupted | Error

  datatype Return = Return(status: ReceiveStatus, packet: Option<CapturedPacket>)

  /** What the consumer sees of the outside world in one step: the stop flag and how a poll ends. */
  datatype World = World(stopRequested: bool, poll: Poll)

  function NextIndex(i: nat, count: nat): nat
    requires count > 0
  {
    (i + 1) % count
  }

  /** The kernel fills the next block, if it owns it; otherwise it has no room. */
  function Fill(s: RingState, block: Block): (next: RingState)
    requires s.WellFormed()
    ensures next.WellFormed()
  {
    if s.slots[s.kernelIndex].user then s
    else s.(slots := s.slots[s.kernelIndex := Slot(true, block)], kernelIndex := NextIndex(s.kernelIndex, |s.slots|))
  }

  function Release(s: RingState): (next: RingState)
    requires s.WellFormed()
    ensures next.WellFormed()
  {
    s.(slots := s.slots[s.currentBlockIndex := s.Current().(user := false)],
       currentBlockActive := false,
       currentBlockPacketIndex := 0,
       currentBlockPacketCount := 0,
       currentPacketOffset := 0,
       currentBlockIndex := NextIndex(s.currentBlockIndex, |s.slots|))
  }

  function Discard(s: RingState): (next: RingState)
    requires s.WellFormed()
    ensures next.WellFormed()
  {
    Release(s.(nonFatalReceiveErrors := s.nonFatalReceiveErrors + 1))
  }

  function Activate(s: RingState): (next: RingState)
    requires s.WellFormed()
    ensures next.WellFormed()
  {
    var block := s.Current().block;
    if !s.Current().user then s
    else if block.numPackets == 0 then Release(s)
    else if BadStart(block) then Discard(s)
    else
      s.(currentBlockPacketIndex := 0,
         currentBlockPacketCount := block.numPackets,
         currentPacketOffset := block.offsetToFirstPacket,
         currentBlockActive := true)
  }

  /** The consumer moves past the packet it has just returned. */
  function Advance(s: RingState): (next: RingState)
    requires s.WellFormed() && HasBytes(s.Current().block.memory, s.currentPacketOffset, PACKET_HEADER_SIZE)
    ensures next.WellFormed()
  {
    var block, i := s.Current().block, s.currentBlockPacketIndex + 1;
    if i >= s.currentBlockPacketCount then s.(currentBlockPacketIndex := i)
    else if !HasNext(block, s.currentPacketOffset) then
      s.(currentBlockPacketIndex := s.currentBlockPacketCount, nonFatalReceiveErrors := s.nonFatalReceiveErrors + 1)
    else
      s.(currentBlockPacketIndex := i,
         currentPacketOffset := s.currentPacketOffset + block.HeaderAt(s.currentPacketOffset).nextOffset)
  }

  /** One step of the consumer: one pass of a loop body. `None` means that `ReceiveNext` goes on. */
  function Consume(s: RingState, world: World): (next: (RingState, Option<Return>))
    requires s.WellFormed()
    ensures next.0.WellFormed()
    ensures next.1.Some? ==> next.0.pc == Top
  {
    match s.pc
    case Top =>
      if world.stopRequested then (s, Some(Return(Interrupted, None)))
      else if !s.currentBlockActive then (s.(pc := Waiting), None)
      else if s.currentBlockPacketIndex >= s.currentBlockPacketCount then (Release(s), None)
      else
        var block, offset := s.Current().block, s.currentPacketOffset;
        if !HasBytes(block.memory, offset, PACKET_HEADER_SIZE) || !Readable(block, offset) then (Discard(s), None)
        else (Advance(s), Some(Return(Packet, Some(PacketAt(block, offset)))))
    case Waiting =>
      if s.Current().user then (s.(pc := Ready), None)
      else
        (match world.poll
         case PollReady => (s, None)
         case PollInterrupted =>
           if world.stopRequested then (s.(pc := Top), Some(Return(Interrupted, None))) else (s, None)
         case PollTimeout =>
           (s.(pc := Top), Some(Return(if world.stopRequested then Interrupted else Timeout, None)))
         case PollFailed =>
           (s.(pc := Top, nonFatalReceiveErrors := s.nonFatalReceiveErrors + 1), Some(Return(Error, None)))
         case PollSocketError =>
           (s.(pc := Top, nonFatalReceiveErrors := s.nonFatalReceiveErrors + 1), Some(Return(Error, None))))
    case Ready =>
      (Activate(s.(pc := Top)), None)
  }

  // ---------------------------------------------------------------------------------------------
  // The system: the ring and what has happened to it

  /** The ring together with its history: all blocks filled, all packets delivered, how many blocks have
      been handed back, and how many polls have failed. */
  datatype System = System(
    ring: RingState,
    filled: seq<Block>,
    delivered: seq<CapturedPacket>,
    released: nat,
    pollErrors: nat)

  /** A ring of `count` blocks, all owned by the kernel, and a consumer that has just opened it. */
  function InitialSystem(blocks: seq<Block>): System {
    System(
      RingState(seq(|blocks|, i requires 0 <= i < |blocks| => Slot(false, blocks[i])), 0, Top, 0, 0, 0, 0, false, 0),
      [], [], 0, 0)
  }

  datatype Event = KernelFills(block: Block) | ConsumerSteps(world: World)

  function SystemFill(sys: System, block: Block): System
    requires sys.ring.WellFormed()
  {
    if sys.ring.slots[sys.ring.kernelIndex].user then sys
    else sys.(ring := Fill(sys.ring, block), filled := sys.filled + [block])
  }

  /** The consumer's step, recorded. A block is handed back when its status word goes from user to kernel. */
  function SystemConsume(sys: System, world: World): (System, Option<Return>)
    requires sys.ring.WellFormed()
  {
    var (ring, returned) := Consume(sys.ring, world);
    var at := sys.ring.currentBlockIndex;
    (sys.(ring := ring,
          delivered := sys.delivered
            + (if returned.Some? && returned.value.packet.Some? then [returned.value.packet.value] else []),
          released := sys.released
            + (if at < |ring.slots| && sys.ring.slots[at].user && !ring.slots[at].user then 1 else 0),
          pollErrors := sys.pollErrors + (if returned.Some? && returned.value.status == Error then 1 else 0)),
     returned)
  }
}
