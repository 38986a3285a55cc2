/** TLS records on the wire, as section 5.1 of RFC 8446 lays them out, and where they stand in a stream: `PlaceAt`
    says where a byte position lies, `RecordAt` which record starts there. */
module TlsRecords {
  import opened Bytes
  import opened Tls

  /** The content types that a record can have: change_cipher_spec, alert, handshake and application_data. */
  predicate IsContentType(contentType: byte) {
    20 <= contentType <= 23
  }

  datatype RawRecord = RawRecord(contentType: byte, minorVersion: byte, body: seq<byte>)

  type Record = r: RawRecord | IsContentType(r.contentType) && |r.body| <= 0xFFFF
    witness RawRecord(22, 0x03, [])

  /** The five bytes in front of a record's body. */
  function WireHeader(contentType: byte, minorVersion: byte, length: u16): (bytes: seq<byte>)
    ensures |bytes| == 5
  {
    [contentType, 0x03, minorVersion, length / 0x100, length % 0x100]
  }

  function Encode(record: Record): (bytes: seq<byte>)
    ensures |bytes| == 5 + |record.body|
  {
    WireHeader(record.contentType, record.minorVersion, |record.body|) + record.body
  }

  function Stream(records: seq<Record>): seq<byte> {
    if records == [] then [] else Encode(records[0]) + Stream(records[1..])
  }

  // ---------------------------------------------------------------------------------------------
  // Positions in a stream

  datatype Place = Boundary | InHeader | InBody(contentType: byte, remaining: nat)

  function PlaceAt(records: seq<Record>, n: nat): Place {
    if n == 0 || records == [] then Boundary
    else
      var size := |Encode(records[0])|;
      if n >= size then PlaceAt(records[1..], n - size)
      else if n < RECORD_HEADER_SIZE then InHeader
      else InBody(records[0].contentType, size - n)
  }

  /** An application data record header lies within the first `n` bytes. */
  predicate AppDataSeenAt(records: seq<Record>, n: nat) {
    && records != []
    && n >= RECORD_HEADER_SIZE
    && (|| records[0].contentType == APPLICATION_DATA
        || (n >= |Encode(records[0])| && AppDataSeenAt(records[1..], n - |Encode(records[0])|)))
  }

  /** The records that start at or after position `n`. */
  function RestAt(records: seq<Record>, n: nat): seq<Record> {
    if n == 0 || records == [] then records
    else if n >= |Encode(records[0])| then RestAt(records[1..], n - |Encode(records[0])|)
    else records[1..]
  }

  /** The record that starts at a position. */
  function RecordAt(records: seq<Record>, p: nat): Option<Record> {
    if records == [] then None
    else if p == 0 then Some(records[0])
    else if p >= |Encode(records[0])| then RecordAt(records[1..], p - |Encode(records[0])|)
    else None
  }

  predicate AppDataStartsAt(records: seq<Record>, p: nat) {
    RecordAt(records, p).Some? && RecordAt(records, p).value.contentType == 23
  }

  /** The last position from `from` on and before `to` at which an application data record starts. */
  function LastStart(records: seq<Record>, from: nat, to: nat): (p: Option<nat>)
    ensures p.Some? ==> from <= p.value < to && AppDataStartsAt(records, p.value)
    ensures forall q :: from <= q < to && AppDataStartsAt(records, q) ==> p.Some? && q <= p.value
  {
    if to <= from then None
    else if AppDataStartsAt(records, to - 1) then Some(to - 1)
    else LastStart(records, from, to - 1)
  }

  lemma {:induction false} PlaceBounds(records: seq<Record>, n: nat)
    ensures PlaceAt(records, n).InBody? ==>
              1 <= PlaceAt(records, n).remaining <= 0xFFFF && IsTlsContentType(PlaceAt(records, n).contentType)
    ensures PlaceAt(records, n).InBody? && n <= |Stream(records)| ==>
              PlaceAt(records, n).remaining <= |Stream(records)| - n
  {
    if n != 0 && records != [] && n >= |Encode(records[0])| {
      PlaceBounds(records[1..], n - |Encode(records[0])|);
    }
  }

  /** What is left of the record at a position. */
  function LeftAt(records: seq<Record>, n: nat): nat {
    if PlaceAt(records, n).InBody? then PlaceAt(records, n).remaining else 0
  }

  /** Going on from a position: either still inside the same record, or into the records after it. */
  lemma {:induction false} GoOn(records: seq<Record>, n: nat, more: nat)
    requires n + more <= |Stream(records)| && PlaceAt(records, n) != InHeader
    ensures var place, left := PlaceAt(records, n), LeftAt(records, n);
            && (more < left ==>
                  && PlaceAt(records, n + more) == InBody(place.contentType, left - more)
                  && (AppDataSeenAt(records, n + more) <==> AppDataSeenAt(records, n)))
            && (more >= left ==>
                  && PlaceAt(records, n + more) == PlaceAt(RestAt(records, n), more - left)
                  && (AppDataSeenAt(records, n + more)
                      <==> AppDataSeenAt(records, n) || AppDataSeenAt(RestAt(records, n), more - left)))
  {
    hide Encode;
    if n != 0 && records != [] {
      var size := |Encode(records[0])|;
      if n >= size {
        StreamCons(records);
        GoOn(records[1..], n - size, more);
      }
    }
  }

  lemma {:induction false} StreamCons(records: seq<Record>)
    requires records != []
    ensures |Stream(records)| == |Encode(records[0])| + |Stream(records[1..])|
    ensures Stream(records)[|Encode(records[0])|..] == Stream(records[1..])
  {
    hide Encode;
  }

  /** The stream after the record at a position is the stream of the records after it. */
  lemma {:induction false} StreamAfter(records: seq<Record>, n: nat)
    requires n <= |Stream(records)| && PlaceAt(records, n) != InHeader
    ensures n + LeftAt(records, n) <= |Stream(records)|
    ensures Stream(records)[n + LeftAt(records, n)..] == Stream(RestAt(records, n))
  {
    hide Encode;
    hide Stream;
    EmptyStream();
    assert Stream(records)[0..] == Stream(records);
    if n != 0 && records != [] {
      var size := |Encode(records[0])|;
      StreamCons(records);
      if n >= size {
        StreamAfter(records[1..], n - size);
        DropDrop(Stream(records), size, n - size + LeftAt(records[1..], n - size));
      }
    }
  }

  lemma {:induction false} DropDrop(stream: seq<byte>, i: nat, j: nat)
    requires i + j <= |stream|
    ensures stream[i..][j..] == stream[i + j..]
  {
  }

  /** The records that start from a position on are those after the record there. */
  lemma {:induction false} RecordsGoOn(records: seq<Record>, n: nat, k: nat)
    requires n <= |Stream(records)| && PlaceAt(records, n) != InHeader
    ensures RecordAt(records, n + k)
            == if k < LeftAt(records, n) then None else RecordAt(RestAt(records, n), k - LeftAt(records, n))
  {
    hide Encode;
    if n != 0 && records != [] {
      var size := |Encode(records[0])|;
      if n >= size {
        StreamCons(records);
        RecordsGoOn(records[1..], n - size, k);
      }
    }
  }

  lemma {:induction false} LastStartGoesOn(records: seq<Record>, n: nat, more: nat)
    requires n <= |Stream(records)| && PlaceAt(records, n) != InHeader
    ensures var left := LeftAt(records, n);
            LastStart(records, n, n + more)
            == if more <= left then None
               else
                 match LastStart(RestAt(records, n), 0, more - left)
                 case None => None
                 case Some(p) => Some(n + left + p)
    decreases more
  {
    hide PlaceAt;
    hide RecordAt;
    hide RestAt;
    if more > 0 {
      RecordsGoOn(records, n, more - 1);
      LastStartGoesOn(records, n, more - 1);
    }
  }

  lemma {:induction false} LastStartCons(records: seq<Record>, n: nat)
    requires records != [] && n > 0
    ensures var size := |Encode(records[0])|;
            var later := if n > size then LastStart(records[1..], 0, n - size) else None;
            LastStart(records, 0, n)
            == if later.Some? then Some(size + later.value)
               else if records[0].contentType == 23 then Some(0) else None
    decreases n
  {
    hide Encode;
    if n > 1 {
      LastStartCons(records, n - 1);
    }
  }

  // ---------------------------------------------------------------------------------------------
  // The headers found in a segment

  /** The first record header of a segment that starts with a record. */
  lemma {:induction false} FirstHeader(records: seq<Record>, payload: seq<byte>, offset: nat)
    requires records != [] && offset <= |payload| && |payload| - offset <= |Stream(records)|
    requires payload[offset..] == Stream(records)[..|payload| - offset]
    ensures ReadTlsRecordHeader(payload, offset)
            == if |payload| - offset < RECORD_HEADER_SIZE then None
               else Some(Header(offset, records[0].contentType, |records[0].body|))
  {
    if |payload| - offset >= RECORD_HEADER_SIZE {
      var stream := Stream(records);
      assert forall i :: 0 <= i < 5 ==>
               payload[offset + i] == payload[offset..][i] == stream[i] == Encode(records[0])[i];
    }
  }

  /** A segment that starts with a record and holds all of it goes on with the records after it. */
  lemma {:induction false} NextRecord(records: seq<Record>, payload: seq<byte>, offset: nat)
    requires records != [] && offset <= |payload| && |payload| - offset <= |Stream(records)|
    requires payload[offset..] == Stream(records)[..|payload| - offset]
    requires |Encode(records[0])| <= |payload| - offset
    ensures var next := offset + |Encode(records[0])|;
            && |payload| - next <= |Stream(records[1..])|
            && payload[next..] == Stream(records[1..])[..|payload| - next]
  {
    hide Stream;
    hide Encode;
    StreamCons(records);
    var n, size := |payload| - offset, |Encode(records[0])|;
    assert payload[offset + size..] == payload[offset..][size..];
    assert Stream(records)[..n][size..] == Stream(records)[size..][..n - size];
  }

  /** Where a segment ends, as its last header tells. */
  function EndOf(headers: seq<Header>, payloadSize: nat): Place {
    if headers != [] && payloadSize < headers[|headers| - 1].End()
    then InBody(headers[|headers| - 1].contentType, headers[|headers| - 1].End() - payloadSize)
    else Boundary
  }

  /** The headers found in a segment that starts with a record are those of the stream. */
  lemma {:induction false} HeadersFollowStream(records: seq<Record>, payload: seq<byte>, offset: nat)
    requires offset <= |payload| && |payload| - offset <= |Stream(records)|
    requires payload[offset..] == Stream(records)[..|payload| - offset]
    ensures var found, n := RecordsFrom(payload, offset), |payload| - offset;
            && (found.bad <==> PlaceAt(records, n) == InHeader)
            && (HasType(found.headers, APPLICATION_DATA) <==> AppDataSeenAt(records, n))
            && (found.headers == [] <==> n < RECORD_HEADER_SIZE)
            && (found.headers != [] ==> records != [] && found.headers[0].contentType == records[0].contentType)
            && (!found.bad ==> PlaceAt(records, n) == EndOf(found.headers, |payload|))
            && (found.bad ==> EndOf(found.headers, |payload|) == Boundary)
    decreases |payload| - offset
  {
    hide Stream;
    hide Encode;
    hide HasType;
    hide ReadTlsRecordHeader;
    hide EndOf;
    var n := |payload| - offset;
    if n == 0 {
      NoHeaders(|payload|);
    } else {
      if records == [] {
        EmptyStream();
      } else {
        FirstHeader(records, payload, offset);
        if n < RECORD_HEADER_SIZE {
          NoHeaders(|payload|);
        } else {
          var header := ReadTlsRecordHeader(payload, offset).value;
          var rest := RecordsFrom(payload, header.End());
          HasTypeCons(header, rest.headers, APPLICATION_DATA);
          EndOfCons(header, rest.headers, |payload|);
          if |Encode(records[0])| <= n {
            NextRecord(records, payload, offset);
            HeadersFollowStream(records[1..], payload, header.End());
          } else {
            NoHeaders(|payload|);
          }
        }
      }
    }
  }

  lemma {:induction false} EmptyStream()
    ensures |Stream([])| == 0
  {
  }

  lemma {:induction false} NoHeaders(payloadSize: nat)
    ensures !HasType([], APPLICATION_DATA) && EndOf([], payloadSize) == Boundary
  {
  }

  lemma {:induction false} EndOfCons(header: Header, rest: seq<Header>, payloadSize: nat)
    ensures rest != [] ==> EndOf([header] + rest, payloadSize) == EndOf(rest, payloadSize)
    ensures rest == [] ==>
              EndOf([header] + rest, payloadSize)
              == if payloadSize < header.End() then InBody(header.contentType, header.End() - payloadSize) else Boundary
  {
  }

  lemma {:induction false} LastAppDataCons(header: Header, rest: seq<Header>)
    ensures LastAppData([header] + rest)
            == if LastAppData(rest).Some? then LastAppData(rest)
               else if header.contentType == 23 then Some(header) else None
  {
    assert ([header] + rest)[1..] == rest;
  }

  /** The header of the application data record that starts last in a segment, for a segment that holds the first
      `n` bytes of a stream from `offset` on. */
  function LastHeader(records: seq<Record>, offset: nat, n: nat): Option<Header> {
    match LastStart(records, 0, n)
    case None => None
    case Some(p) => Some(Header(offset + p, 23, |RecordAt(records, p).value.body|))
  }

  lemma {:induction false} LastHeaderCons(records: seq<Record>, offset: nat, n: nat)
    requires records != [] && n > 0
    ensures var size := |Encode(records[0])|;
            var later := if n > size then LastHeader(records[1..], offset + size, n - size) else None;
            LastHeader(records, offset, n)
            == if later.Some? then later
               else if records[0].contentType == 23 then Some(Header(offset, 23, |records[0].body|)) else None
  {
    hide Encode;
    hide LastStart;
    LastStartCons(records, n);
  }

  /** The last application data header found in a segment that starts with a record, and does not end inside a
      header, is that of the last application data record that starts in it. */
  lemma {:induction false} LastFollowsStream(records: seq<Record>, payload: seq<byte>, offset: nat)
    requires offset <= |payload| && |payload| - offset <= |Stream(records)|
    requires payload[offset..] == Stream(records)[..|payload| - offset]
    requires PlaceAt(records, |payload| - offset) != InHeader
    ensures LastAppData(RecordsFrom(payload, offset).headers) == LastHeader(records, offset, |payload| - offset)
    decreases |payload| - offset
  {
    hide Stream;
    hide Encode;
    hide ReadTlsRecordHeader;
    hide LastAppData;
    hide LastHeader;
    var n := |payload| - offset;
    if n == 0 || records == [] {
      EmptyStream();
      NoLastHeader(records, offset);
    } else {
      FirstHeader(records, payload, offset);
      var header := ReadTlsRecordHeader(payload, offset).value;
      var size := |Encode(records[0])|;
      LastAppDataCons(header, RecordsFrom(payload, header.End()).headers);
      LastHeaderCons(records, offset, n);
      NoLastHeader(records, offset);
      if size <= n {
        NextRecord(records, payload, offset);
        LastFollowsStream(records[1..], payload, header.End());
        NoLastHeader(records[1..], header.End());
      }
    }
  }

  lemma {:induction false} NoLastHeader(records: seq<Record>, offset: nat)
    ensures LastHeader(records, offset, 0) == None && LastAppData([]) == None
  {
  }

  // ---------------------------------------------------------------------------------------------
  // Headers on the wire

  /** A record header is read exactly where the five bytes of one stand. */
  lemma {:induction false} HeaderOnWire(payload: seq<byte>, offset: nat, header: Header)
    ensures ReadTlsRecordHeader(payload, offset) == Some(header)
            <==> && header.offset == offset && IsContentType(header.contentType)
                 && exists minorVersion: byte ::
                      StandsAt(WireHeader(header.contentType, minorVersion, header.length), payload, offset)
  {
    if ReadTlsRecordHeader(payload, offset) == Some(header) {
      assert payload[offset..offset + 5] == WireHeader(header.contentType, payload[offset + 2], header.length);
      assert StandsAt(WireHeader(header.contentType, payload[offset + 2], header.length), payload, offset);
    }
    if minorVersion: byte :| StandsAt(WireHeader(header.contentType, minorVersion, header.length), payload, offset) {
      var wire := WireHeader(header.contentType, minorVersion, header.length);
      assert forall i :: 0 <= i < 5 ==> payload[offset + i] == payload[offset..offset + 5][i] == wire[i];
    }
  }

  predicate StandsAt(part: seq<byte>, payload: seq<byte>, offset: nat) {
    offset + |part| <= |payload| && payload[offset..offset + |part|] == part
  }
}
