/** Blocks as the kernel lays them out (struct tpacket3_hdr of linux/if_packet.h), written down field by field, and
    the consumer as the inverse: what it gets out of such blocks are the captured frames. */
module RingFrames {
  import opened Bytes
  import opened Policy
  import opened RingMachine
  import opened RingProtocol
  import opened RingRuns

  function Le16(value: u16): (bytes: seq<byte>)
    ensures |bytes| == 2
  {
    [value % 0x100, value / 0x100]
  }

  function Le32(value: u32): (bytes: seq<byte>)
    ensures |bytes| == 4
  {
    Le16(value % 0x1_0000) + Le16(value / 0x1_0000)
  }

  /** A captured frame: its timestamp, its length on the wire and what was captured of it; then what the kernel
      puts in between that is never read: the status, the fields behind `tp_mac`, the bytes between header and
      frame, and those behind the frame. */
  datatype RawFrame = RawFrame(
    sec: u32,
    nsec: u32,
    length: u32,
    frame: seq<byte>,
    status: seq<byte>,
    fields: seq<byte>,
    gap: seq<byte>,
    pad: seq<byte>)
  {
    predicate Valid() {
      && |frame| <= length
      && |status| == 4 && |fields| == 22
      && 48 + |gap| < 0x1_0000
      && Size() < 0x1_0000_0000
    }

    function Size(): nat {
      48 + |gap| + |frame| + |pad|
    }

    /** What a consumer must return: the frame, both lengths, and the time in whole microseconds. */
    function Returned(): CapturedPacket
      requires Valid()
    {
      CapturedPacket(frame, |frame|, length,
                     sec * 1_000_000_000 + if nsec < 1_000_000_000 then nsec - nsec % 1000 else 999_999_000)
    }
  }

  /** The 48 bytes of a packet header. */
  function HeaderBytes(h: PacketHeader, status: seq<byte>, fields: seq<byte>): (bytes: seq<byte>)
    requires |status| == 4 && |fields| == 22
    ensures |bytes| == 48
  {
    Le32(h.nextOffset)
    + (Le32(h.sec) + (Le32(h.nsec) + (Le32(h.snaplen) + (Le32(h.len) + (status + (Le16(h.mac) + fields))))))
  }

  /** The header of a frame, which says how far away the next header is. */
  function HeaderOf(p: RawFrame, next: u32): PacketHeader
    requires p.Valid()
  {
    PacketHeader(next, p.sec, p.nsec, |p.frame|, p.length, 48 + |p.gap|)
  }

  function Cell(p: RawFrame, next: u32): (bytes: seq<byte>)
    requires p.Valid()
    ensures |bytes| == p.Size()
  {
    HeaderBytes(HeaderOf(p, next), p.status, p.fields) + (p.gap + (p.frame + p.pad))
  }

  ghost predicate AllValid(frames: seq<RawFrame>) {
    forall p :: p in frames ==> p.Valid()
  }

  /** Frames one after the other, each header pointing to the next; the last one may point anywhere. */
  function Cells(frames: seq<RawFrame>, lastNext: u32): seq<byte>
    requires AllValid(frames)
  {
    if frames == [] then []
    else
      Cell(frames[0], if |frames| == 1 then lastNext else frames[0].Size()) + Cells(frames[1..], lastNext)
  }

  function ReturnedFrames(frames: seq<RawFrame>): (packets: seq<CapturedPacket>)
    requires AllValid(frames)
    ensures |packets| == |frames|
  {
    if frames == [] then [] else [frames[0].Returned()] + ReturnedFrames(frames[1..])
  }

  // ---------------------------------------------------------------------------------------------
  // One header

  /** The bytes `part` stand at `offset`. */
  predicate Holds(memory: seq<byte>, offset: nat, part: seq<byte>) {
    offset + |part| <= |memory| && memory[offset..offset + |part|] == part
  }

  lemma {:induction false} HoldsParts(memory: seq<byte>, offset: nat, a: seq<byte>, b: seq<byte>)
    requires Holds(memory, offset, a + b)
    ensures Holds(memory, offset, a) && Holds(memory, offset + |a|, b)
  {
    var part := memory[offset..offset + |a + b|];
    assert part[..|a|] == a && part[|a|..] == b;
  }

  lemma {:induction false} HoldsLe16(memory: seq<byte>, offset: nat, value: u16)
    requires Holds(memory, offset, Le16(value))
    ensures HasBytes(memory, offset, 2) && ReadLe16(memory, offset) == value
  {
    var part := memory[offset..offset + 2];
    assert part[0] == memory[offset] && part[1] == memory[offset + 1];
  }

  lemma {:induction false} HoldsLe32(memory: seq<byte>, offset: nat, value: u32)
    requires Holds(memory, offset, Le32(value))
    ensures HasBytes(memory, offset, 4) && ReadLe32(memory, offset) == value
  {
    var part := memory[offset..offset + 4];
    assert forall i :: 0 <= i < 4 ==> memory[offset + i] == part[i] == Le32(value)[i];
  }

  lemma {:induction false} Size(memory: seq<byte>, offset: nat, part: seq<byte>)
    requires Holds(memory, offset, part)
    ensures offset + |part| <= |memory|
  {
  }

  /** A header is read back field by field. */
  lemma {:induction false} HeaderRoundTrip(
    block: Block, offset: nat, h: PacketHeader, status: seq<byte>, fields: seq<byte>)
    requires |status| == 4 && |fields| == 22 && Holds(block.memory, offset, HeaderBytes(h, status, fields))
    ensures HasBytes(block.memory, offset, PACKET_HEADER_SIZE) && block.HeaderAt(offset) == h
  {
    hide Holds;
    hide Le16;
    hide Le32;
    hide ReadLe16;
    hide ReadLe32;
    var memory := block.memory;
    Size(memory, offset, HeaderBytes(h, status, fields));
    var fromMac := Le16(h.mac) + fields;
    var fromLen := Le32(h.len) + (status + fromMac);
    var fromNsec := Le32(h.nsec) + (Le32(h.snaplen) + fromLen);
    HoldsParts(memory, offset, Le32(h.nextOffset), Le32(h.sec) + fromNsec);
    HoldsLe32(memory, offset, h.nextOffset);
    HoldsParts(memory, offset + 4, Le32(h.sec), fromNsec);
    HoldsLe32(memory, offset + 4, h.sec);
    HoldsParts(memory, offset + 8, Le32(h.nsec), Le32(h.snaplen) + fromLen);
    HoldsLe32(memory, offset + 8, h.nsec);
    HoldsParts(memory, offset + 12, Le32(h.snaplen), fromLen);
    HoldsLe32(memory, offset + 12, h.snaplen);
    HoldsParts(memory, offset + 16, Le32(h.len), status + fromMac);
    HoldsLe32(memory, offset + 16, h.len);
    HoldsParts(memory, offset + 20, status, fromMac);
    HoldsParts(memory, offset + 24, Le16(h.mac), fields);
    HoldsLe16(memory, offset + 24, h.mac);
  }

  /** When a block is given up, in terms of the fields of a header: the data reach beyond the block, or are longer
      than the packet was; the next header is not there; or the block's own description is wrong. */
  lemma {:induction false} RefusalIff(
    block: Block, offset: nat, h: PacketHeader, status: seq<byte>, fields: seq<byte>)
    requires |status| == 4 && |fields| == 22 && Holds(block.memory, offset, HeaderBytes(h, status, fields))
    ensures HasBytes(block.memory, offset, PACKET_HEADER_SIZE)
    ensures Readable(block, offset) <==> offset + h.mac + h.snaplen <= |block.memory| && h.snaplen <= h.len
    ensures HasNext(block, offset) <==> h.nextOffset != 0 && offset + h.nextOffset + 48 <= |block.memory|
    ensures BadStart(block)
            <==> block.offsetToFirstPacket + 48 > |block.memory| || 48 * block.numPackets > |block.memory|
  {
    HeaderRoundTrip(block, offset, h, status, fields);
  }

  /** The frame is read back. */
  lemma {:induction false} CellRoundTrip(block: Block, offset: nat, p: RawFrame, next: u32)
    requires p.Valid() && Holds(block.memory, offset, Cell(p, next))
    ensures HasBytes(block.memory, offset, PACKET_HEADER_SIZE) && Readable(block, offset)
    ensures block.HeaderAt(offset).nextOffset == next
    ensures PacketAt(block, offset) == p.Returned()
  {
    hide HeaderBytes;
    hide Block.HeaderAt;
    var memory, start := block.memory, offset + 48 + |p.gap|;
    var header := HeaderBytes(HeaderOf(p, next), p.status, p.fields);
    HoldsParts(memory, offset, header, p.gap + (p.frame + p.pad));
    HeaderRoundTrip(block, offset, HeaderOf(p, next), p.status, p.fields);
    HoldsParts(memory, offset + 48, p.gap, p.frame + p.pad);
    HoldsParts(memory, start, p.frame, p.pad);
  }

  // ---------------------------------------------------------------------------------------------
  // Blocks

  /** A block of such frames: some bytes in front, which hold the block's own header, the frames, and what is left. */
  datatype RawBlock = RawBlock(lead: seq<byte>, frames: seq<RawFrame>, lastNext: u32, rest: seq<byte>)
  {
    ghost predicate Valid() {
      AllValid(frames) && |lead| < 0x1_0000_0000 && |frames| < 0x1_0000_0000
    }

    function Laid(): Block
      requires Valid()
    {
      Block(|frames|, |lead|, lead + (Cells(frames, lastNext) + rest))
    }
  }

  lemma {:induction false} FirstCell(frames: seq<RawFrame>, lastNext: u32)
    requires AllValid(frames) && frames != []
    ensures frames[0].Valid() && AllValid(frames[1..])
    ensures Cells(frames, lastNext)
            == Cell(frames[0], if |frames| == 1 then lastNext else frames[0].Size()) + Cells(frames[1..], lastNext)
  {
  }

  lemma {:induction false} CellsAreLong(frames: seq<RawFrame>, lastNext: u32)
    requires AllValid(frames)
    ensures |Cells(frames, lastNext)| >= 48 * |frames|
  {
    hide Cell;
    if frames != [] {
      FirstCell(frames, lastNext);
      CellsAreLong(frames[1..], lastNext);
    }
  }

  lemma {:induction false} ChainOfCells(block: Block, i: nat, offset: nat, frames: seq<RawFrame>, lastNext: u32)
    requires AllValid(frames) && frames != [] && i + |frames| == block.numPackets
    requires Holds(block.memory, offset, Cells(frames, lastNext))
    ensures Chain(block, i, offset) == ReturnedFrames(frames)
    decreases |frames|
  {
    hide Holds;
    hide Cell;
    hide Readable;
    hide PacketAt;
    hide HasNext;
    hide Chain;
    hide Block.HeaderAt;
    hide RawFrame.Returned;
    hide RawFrame.Valid;
    var p, others := frames[0], frames[1..];
    var next := if |frames| == 1 then lastNext else p.Size();
    FirstCell(frames, lastNext);
    HoldsParts(block.memory, offset, Cell(p, next), Cells(others, lastNext));
    CellRoundTrip(block, offset, p, next);
    ChainStep(block, i, offset);
    if others != [] {
      FirstCell(others, lastNext);
      CellsAreLong(others, lastNext);
      Size(block.memory, offset + p.Size(), Cells(others, lastNext));
      NextIsThere(block, offset, p.Size());
      ChainOfCells(block, i + 1, offset + p.Size(), others, lastNext);
    }
  }

  lemma {:induction false} NextIsThere(block: Block, offset: nat, next: nat)
    requires HasBytes(block.memory, offset, PACKET_HEADER_SIZE) && block.HeaderAt(offset).nextOffset == next > 0
    requires offset + next + 48 <= |block.memory|
    ensures HasNext(block, offset)
  {
  }

  /** Every block of valid frames is read back frame by frame, in order, and is undamaged. */
  lemma {:induction false} BlockRoundTrip(raw: RawBlock)
    requires raw.Valid()
    ensures PacketsOf(raw.Laid()) == ReturnedFrames(raw.frames)
    ensures !Damaged(raw.Laid())
  {
    hide Cells;
    hide Chain;
    var block, cells := raw.Laid(), Cells(raw.frames, raw.lastNext);
    if raw.frames == [] {
      NothingAnnounced(block);
    } else {
      CellsAreLong(raw.frames, raw.lastNext);
      assert block.memory[|raw.lead|..|raw.lead| + |cells|] == cells;
      ChainOfCells(block, 0, |raw.lead|, raw.frames, raw.lastNext);
    }
  }

  lemma {:induction false} NothingAnnounced(block: Block)
    requires block.numPackets == 0
    ensures PacketsOf(block) == [] && !Damaged(block)
  {
  }

  // ---------------------------------------------------------------------------------------------
  // Whole runs

  ghost predicate AllBlocksValid(raws: seq<RawBlock>) {
    forall raw :: raw in raws ==> raw.Valid()
  }

  function LaidBlocks(raws: seq<RawBlock>): (blocks: seq<Block>)
    requires AllBlocksValid(raws)
    ensures |blocks| == |raws|
  {
    if raws == [] then [] else [raws[0].Laid()] + LaidBlocks(raws[1..])
  }

  /** What a consumer must return of all of them, in order. */
  function AllFrames(raws: seq<RawBlock>): seq<CapturedPacket>
    requires AllBlocksValid(raws)
  {
    if raws == [] then []
    else
      assert raws[0].Valid();
      ReturnedFrames(raws[0].frames) + AllFrames(raws[1..])
  }

  lemma {:induction false} BlocksHoldFrames(raws: seq<RawBlock>)
    requires AllBlocksValid(raws)
    ensures AllPackets(LaidBlocks(raws)) == AllFrames(raws)
    ensures forall block :: block in LaidBlocks(raws) ==> !Damaged(block)
  {
    hide PacketsOf;
    hide Damaged;
    hide RawBlock.Laid;
    hide RawBlock.Valid;
    if raws != [] {
      BlockRoundTrip(raws[0]);
      BlocksHoldFrames(raws[1..]);
      assert LaidBlocks(raws)[1..] == LaidBlocks(raws[1..]);
    }
  }

  lemma {:induction false} NoneDamaged(blocks: seq<Block>)
    requires forall block :: block in blocks ==> !Damaged(block)
    ensures DamagedBlocks(blocks) == 0
  {
    hide Damaged;
    if blocks != [] {
      NoneDamaged(blocks[..|blocks| - 1]);
    }
  }

  /** Over every run in which the kernel fills such blocks, what the calls return, followed by what is pending, are
      the captured frames, in order and each exactly once; and nothing counts as an error but failed polls. */
  lemma {:induction false} FramesAreDelivered(blocks: seq<Block>, events: seq<Event>, raws: seq<RawBlock>)
    requires blocks != [] && AllBlocksValid(raws)
    requires Accepted(InitialSystem(blocks), events) == LaidBlocks(raws)
    ensures var start := InitialSystem(blocks); var end := Run(start, events);
            && end.released <= |end.filled| == |raws|
            && Received(Returns(start, events)) + Pending(end) == AllFrames(raws)
            && (end.released == |raws| ==> Received(Returns(start, events)) == AllFrames(raws))
            && end.ring.nonFatalReceiveErrors == ErrorReturns(Returns(start, events))
  {
    hide Run;
    hide Accepted;
    hide Returns;
    hide Received;
    hide PacketsOf;
    hide Damaged;
    hide DamagedBlocks;
    hide LaidBlocks;
    hide AllFrames;
    hide Invariant;
    ExactlyOnceFifo(blocks, events);
    DamageIsCountedOnce(blocks, events);
    BlocksHoldFrames(raws);
    var end := Run(InitialSystem(blocks), events);
    NoneDamaged(end.filled[..end.released]);
    InitialInvariant(blocks);
    RunKeepsInvariant(InitialSystem(blocks), events);
    InvariantFacts(end);
    if end.released == |raws| {
      assert end.filled[end.released..] == [];
    }
  }
}
