/** The streaming reader of classic PCAP files (src/offline/PcapReader.cpp). The file is a byte string;
    the stream keeps its own position in it, which the reader has to keep in step with the offset it
    reports. */
module PcapReading {
  import opened Bytes
  import opened PcapFile

  class PcapReader {
    var file: seq<byte>
    var streamOpen: bool
    var streamPosition: nat
    var globalHeader: Option<GlobalHeader>
    var nextInputOffset: nat
    var nextPacketIndex: nat
    var hasError: bool
    var incompleteTail: Option<Tail>

    /** While the reader can go on, the stream stands where the next record header is expected, within
        the file. */
    ghost predicate Valid()
      reads this
    {
      && (streamOpen ==> globalHeader.Some?)
      && (streamOpen && !hasError ==> streamPosition == nextInputOffset <= |file|)
    }

    /** What the reader still has to return, and how it will end. */
    ghost function Ahead(): (seq<Record>, Ending)
      requires Valid() && streamOpen && !hasError
      reads this
    {
      ReadAll(file, nextInputOffset, nextPacketIndex, globalHeader.value.endianness)
    }

    constructor ()
      ensures Valid() && !streamOpen
    {
      file, streamOpen, streamPosition := [], false, 0;
      globalHeader, nextInputOffset, nextPacketIndex := None, 0, 0;
      hasError, incompleteTail := false, None;
    }

    /** Reads `count` bytes from the stream, or fewer at its end. */
    method ReadExact(count: nat) returns (ok: bool, bytes: seq<byte>)
      modifies this`streamPosition
      ensures ok <==> HasBytes(file, old(streamPosition), count)
      ensures ok ==> bytes == file[old(streamPosition)..old(streamPosition) + count]
      ensures ok ==> streamPosition == old(streamPosition) + count
    {
      if !HasBytes(file, streamPosition, count) {
        streamPosition := Max(streamPosition, |file|);
        return false, [];
      }
      bytes := file[streamPosition..streamPosition + count];
      streamPosition := streamPosition + count;
      ok := true;
    }

    /** Opens a file and checks its global header. */
    method Open(contents: seq<byte>) returns (success: bool)
      modifies this
      ensures Valid() && file == contents
      ensures success <==> ParseGlobalHeader(contents).Header?
      ensures success <==> streamOpen
      ensures hasError <==> !success
      ensures success ==>
                && globalHeader == Some(ParseGlobalHeader(contents).header)
                && |contents| >= GLOBAL_HEADER_SIZE
                && Ahead() == ReadAll(contents, GLOBAL_HEADER_SIZE, 0, ParseGlobalHeader(contents).header.endianness)
                && nextInputOffset == GLOBAL_HEADER_SIZE && nextPacketIndex == 0 && incompleteTail == None
    {
      hide ReadU16;
      hide ReadU32;
      hide ReadAll;
      file, streamOpen, streamPosition := contents, true, 0;
      globalHeader, nextInputOffset, nextPacketIndex := None, 0, 0;
      hasError, incompleteTail := false, None;
      success := false;
      var read, bytes := ReadExact(GLOBAL_HEADER_SIZE);
      if !read {
        hasError, streamOpen := true, false;
        return;
      }
      assert bytes == contents[..GLOBAL_HEADER_SIZE] && bytes[..4] == contents[..4];
      HeaderFieldsFromPrefix(contents);
      if ReadU32(bytes, 0, Big) == 0x0A0D_0D0A {
        hasError, streamOpen := true, false;
        return;
      }
      var magic := DetectMagic(bytes[..4]);
      if magic == None {
        hasError, streamOpen := true, false;
        return;
      }
      var (e, precision) := magic.value;
      var header := GlobalHeader(
        e, precision, ReadU16(bytes, 4, e), ReadU16(bytes, 6, e), ReadU32(bytes, 8, e), ReadU32(bytes, 12, e),
        ReadU32(bytes, 16, e), ReadU32(bytes, 20, e));
      globalHeader := Some(header);
      if header.versionMajor != 2 || header.versionMinor != 4 {
        hasError, streamOpen := true, false;
        return;
      }
      if header.snaplen == 0 {
        hasError, streamOpen := true, false;
        return;
      }
      if header.linkType != ETHERNET_LINK_TYPE {
        hasError, streamOpen := true, false;
        return;
      }
      nextInputOffset := GLOBAL_HEADER_SIZE;
      success := true;
    }

    /** Returns the next record, or nothing at the end or at an error. */
    method ReadNext() returns (packet: Option<Record>)
      requires Valid()
      modifies this
      ensures Valid()
      ensures file == old(file) && streamOpen == old(streamOpen) && globalHeader == old(globalHeader)
      ensures !old(streamOpen) || old(hasError) ==>
                packet == None && hasError == old(hasError) && incompleteTail == old(incompleteTail)
      ensures old(streamOpen) && !old(hasError) ==>
                var (records, ending) := old(Ahead());
                match packet
                case Some(record) =>
                  && records != [] && record == records[0]
                  && !hasError && Ahead() == (records[1..], ending)
                  && incompleteTail == old(incompleteTail)
                case None =>
                  && records == []
                  && (hasError <==> ending != CleanEnd)
                  && incompleteTail == (if ending.IncompleteTail? then Some(ending.tail) else old(incompleteTail))
    {
      hide ReadU32;
      packet := None;
      if !streamOpen || hasError {
        return;
      }
      var fileSize := |file|;
      if nextInputOffset == fileSize {
        return;
      }
      var remainingForHeader := fileSize - nextInputOffset;
      if remainingForHeader < PACKET_HEADER_SIZE {
        hasError := true;
        incompleteTail := Some(HeaderTail(nextInputOffset, remainingForHeader));
        return;
      }
      var packetHeaderOffset := nextInputOffset;
      var read, raw := ReadExact(PACKET_HEADER_SIZE);
      assert read;
      var e := globalHeader.value.endianness;
      RecordFieldsFromSlice(file, packetHeaderOffset, e);
      var tsSec := ReadU32(raw, 0, e);
      var tsFraction := ReadU32(raw, 4, e);
      var capturedLength := ReadU32(raw, 8, e);
      var originalLength := ReadU32(raw, 12, e);
      if capturedLength > originalLength {
        hasError := true;
        return;
      }
      var dataOffset := packetHeaderOffset + PACKET_HEADER_SIZE;
      var remainingData := fileSize - dataOffset;
      if capturedLength > remainingData {
        hasError := true;
        incompleteTail := Some(DataTail(dataOffset, capturedLength, remainingData, capturedLength - remainingData));
        return;
      }
      var bytes;
      read, bytes := ReadExact(capturedLength);
      assert read;
      packet := Some(Record(
        nextPacketIndex, packetHeaderOffset, dataOffset, tsSec, tsFraction, capturedLength, originalLength, bytes));
      nextInputOffset := dataOffset + capturedLength;
      nextPacketIndex := nextPacketIndex + 1;
    }
  }

  lemma {:induction false} HeaderFieldsFromPrefix(file: seq<byte>)
    requires |file| >= GLOBAL_HEADER_SIZE
    ensures var bytes := file[..GLOBAL_HEADER_SIZE];
            && (forall e :: ReadU16(bytes, 4, e) == ReadU16(file, 4, e) && ReadU16(bytes, 6, e) == ReadU16(file, 6, e))
            && (forall e :: ReadU32(bytes, 0, e) == ReadU32(file, 0, e) && ReadU32(bytes, 8, e) == ReadU32(file, 8, e))
            && (forall e :: ReadU32(bytes, 12, e) == ReadU32(file, 12, e))
            && (forall e :: ReadU32(bytes, 16, e) == ReadU32(file, 16, e))
            && (forall e :: ReadU32(bytes, 20, e) == ReadU32(file, 20, e))
  {
  }

  lemma {:induction false} RecordFieldsFromSlice(file: seq<byte>, offset: nat, e: Endianness)
    requires offset + PACKET_HEADER_SIZE <= |file|
    ensures var raw := file[offset..offset + PACKET_HEADER_SIZE];
            && ReadU32(raw, 0, e) == ReadU32(file, offset, e)
            && ReadU32(raw, 4, e) == ReadU32(file, offset + 4, e)
            && ReadU32(raw, 8, e) == ReadU32(file, offset + 8, e)
            && ReadU32(raw, 12, e) == ReadU32(file, offset + 12, e)
  {
    var raw := file[offset..offset + PACKET_HEADER_SIZE];
    assert forall i :: 0 <= i < PACKET_HEADER_SIZE ==> raw[i] == file[offset + i];
  }
}
