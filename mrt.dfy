/** MRT records (RFC 6396): the common header, the dispatch on the record
    type, and `mrt_parser::parse`, which reads one record from the input
    stream and appends its events to the event queue.

    The input stream is the octets of the whole input and a read position,
    with the end-of-file flag of a C++ `std::istream`: a read that asks for
    more octets than remain takes what remains, sets the flag and fails. */
module Mrt {
  import opened Bytes
  import opened MrtEvents
  import opened Bgp4mp

  /** The MRT common header: Timestamp (seconds), Type, Subtype and the
      Length of the message that follows. */
  datatype MrtHeader = MrtHeader(timestamp: nat, mrtType: nat, subtype: nat, length: nat)

  /** `mrt_header_length`. */
  const HeaderLength: nat := 12

  /** A header's seconds as the model's microseconds. */
  function Microseconds(seconds: nat): nat
  {
    seconds * 1_000_000
  }

  /** `parse_mrt_header`: `b32be >> b16be >> b16be >> b32be`. */
  function DecodeHeader(raw: seq<Byte>): (h: Option<MrtHeader>)
    ensures h.Some? <==> |raw| >= HeaderLength
    ensures h.Some? ==> h.value.length < 0x1_0000_0000
  {
    var timestamp := U32(raw, 0);
    var mrtType := U16(raw, 4);
    var subtype := U16(raw, 6);
    var length := U32(raw, 8);
    if timestamp.None? || mrtType.None? || subtype.None? || length.None? then None
    else Some(MrtHeader(timestamp.value, mrtType.value, subtype.value, length.value))
  }

  predicate HeaderInRange(h: MrtHeader)
  {
    h.timestamp < 0x1_0000_0000 && h.mrtType < 0x1_0000 && h.subtype < 0x1_0000 && h.length < 0x1_0000_0000
  }

  /** The wire form of a common header. */
  function EncodeHeader(h: MrtHeader): (s: seq<Byte>)
    requires HeaderInRange(h)
    ensures |s| == HeaderLength
  {
    Enc32(h.timestamp) + Enc16(h.mrtType) + Enc16(h.subtype) + Enc32(h.length)
  }

  /** Round trip: a common header is read back from its wire form, whatever
      follows it. */
  lemma HeaderRoundTrip(h: MrtHeader, rest: seq<Byte>)
    requires HeaderInRange(h)
    ensures DecodeHeader(EncodeHeader(h) + rest) == Some(h)
  {
    var raw := EncodeHeader(h) + rest;
    assert raw[0..4] == Enc32(h.timestamp);
    assert raw[4..6] == Enc16(h.mrtType);
    assert raw[6..8] == Enc16(h.subtype);
    assert raw[8..12] == Enc32(h.length);
    U32RoundTrip(raw, 0, h.timestamp);
    U16RoundTrip(raw, 4, h.mrtType);
    U16RoundTrip(raw, 6, h.subtype);
    U32RoundTrip(raw, 8, h.length);
  }

  /** The message of a record, by the record's Type: TABLE_DUMP_V2 (13) is
      accepted without being read, BGP4MP (16) and BGP4MP_ET (17) are
      decoded, every other type fails.  The header's seconds become the
      records' microseconds. */
  function DecodeRecord(h: MrtHeader, body: seq<Byte>): Outcome
  {
    var ts := Microseconds(h.timestamp);
    if h.mrtType == 13 then Outcome(true, [])
    else if h.mrtType == 16 then DecodeBgp4mp(body, h.subtype, ts)
    else if h.mrtType == 17 then DecodeBgp4mpEt(body, h.subtype, ts)
    else Outcome(false, [])
  }

  /** How the stream at a position frames one record: fewer than 12 octets
      left, a message shorter than its Length, or a complete record and the
      position after it. */
  datatype Framed = EndOfStream | Truncated | Record(header: MrtHeader, body: seq<Byte>, next: nat)

  function FrameRecord(data: seq<Byte>, pos: nat): (f: Framed)
    requires pos <= |data|
    ensures f.Record? ==> pos + HeaderLength + |f.body| == f.next <= |data| && f.header.length == |f.body|
  {
    if pos + HeaderLength > |data| then EndOfStream
    else
      var h := DecodeHeader(data[pos..pos + HeaderLength]).value;
      var start := pos + HeaderLength;
      if start + h.length > |data| then Truncated
      else Record(h, data[start..start + h.length], start + h.length)
  }

  /** What one call of `parse` does to a stream at `pos`: its verdict, the
      events it appends, the new position and whether it hit the end of the
      stream. */
  datatype Parsed = Parsed(ok: bool, events: seq<Event>, next: nat, atEnd: bool)

  /** One call of `parse` on the stream `data` at `pos`.  The end of the
      input succeeds and a truncated message fails, both at the end of the
      stream; a complete record is decoded and the stream stands right
      after it. */
  function ParseRecord(data: seq<Byte>, pos: nat): (p: Parsed)
    requires pos <= |data|
    ensures pos <= p.next <= |data|
  {
    match FrameRecord(data, pos)
    case EndOfStream => Parsed(true, [], |data|, true)
    case Truncated => Parsed(false, [], |data|, true)
    case Record(h, body, next) =>
      var r := DecodeRecord(h, body);
      Parsed(r.ok, r.events, next, false)
  }

  /** The input stream of the reader. */
  class InputStream {
    const data: seq<Byte>
    var pos: nat
    var eof: bool

    /** The position is inside the stream, and the end-of-file flag is only
        set once the position reached the end. */
    predicate Valid()
      reads this
    {
      pos <= |data| && (eof ==> pos == |data|)
    }

    constructor (data: seq<Byte>)
      ensures Valid() && this.data == data && pos == 0 && !eof
    {
      this.data := data;
      pos := 0;
      eof := false;
    }

    /** `read(buffer, n)` followed by the stream's boolean test. */
    method Read(n: nat) returns (ok: bool, chunk: seq<Byte>)
      requires Valid()
      modifies this
      ensures Valid()
      ensures ok == (old(pos) + n <= |data|)
      ensures ok ==> chunk == data[old(pos)..old(pos) + n] && pos == old(pos) + n && eof == old(eof)
      ensures !ok ==> chunk == data[old(pos)..] && pos == |data| && eof
    {
      if pos + n <= |data| {
        chunk := data[pos..pos + n];
        pos := pos + n;
        ok := true;
      } else {
        chunk := data[pos..];
        pos := |data|;
        eof := true;
        ok := false;
      }
    }
  }

  /** The dispatch of `mrt_parser::parse` on the record's Type. */
  method ParseBody(h: MrtHeader, body: seq<Byte>) returns (r: Outcome)
    ensures r == DecodeRecord(h, body)
  {
    var ts := Microseconds(h.timestamp);
    if h.mrtType == 13 {
      r := Outcome(true, []);
    } else if h.mrtType == 16 {
      r := ParseBgp4mp(body, h.subtype, ts);
    } else if h.mrtType == 17 {
      r := ParseBgp4mpEt(body, h.subtype, ts);
    } else {
      r := Outcome(false, []);
    }
  }

  /** `mrt_parser::parse`: the common header, the message of its Length,
      and the dispatch. */
  method Parse(input: InputStream) returns (r: Outcome)
    requires input.Valid()
    modifies input
    ensures input.Valid()
    ensures var p := ParseRecord(input.data, old(input.pos));
            r == Outcome(p.ok, p.events) && input.pos == p.next && input.eof == (old(input.eof) || p.atEnd)
  {
    ghost var f := FrameRecord(input.data, input.pos);
    var ok, raw := input.Read(HeaderLength);
    if !ok {
      return Outcome(true, []);
    }
    var h := DecodeHeader(raw).value;
    ok, raw := input.Read(h.length);
    if !ok {
      return Outcome(false, []);
    }
    assert f == Record(h, raw, input.pos);
    r := ParseBody(h, raw);
  }

  // ---------------------------------------------------------------------
  // Properties

  /** The wire form of a record: its header, then its message. */
  function EncodeRecord(h: MrtHeader, body: seq<Byte>): (s: seq<Byte>)
    requires HeaderInRange(h) && h.length == |body|
    ensures |s| == HeaderLength + |body|
  {
    EncodeHeader(h) + body
  }

  /** A record on the stream is framed as its header says: the header is
      read back, the message is the record's body, and the stream stands
      right after it. */
  lemma FrameEncodedRecord(before: seq<Byte>, h: MrtHeader, body: seq<Byte>, after: seq<Byte>)
    requires HeaderInRange(h) && h.length == |body|
    ensures FrameRecord(before + EncodeRecord(h, body) + after, |before|) == Record(h, body, |before| + HeaderLength + |body|)
  {
    var data := before + EncodeRecord(h, body) + after;
    var pos := |before|;
    assert data[pos..pos + HeaderLength] == EncodeHeader(h) + [];
    HeaderRoundTrip(h, []);
    assert data[pos + HeaderLength..pos + HeaderLength + |body|] == body;
  }

  /** A record on the stream is parsed as its header says: its message is
      decoded and the stream stands right after it. */
  lemma ParseEncodedRecord(before: seq<Byte>, h: MrtHeader, body: seq<Byte>, after: seq<Byte>)
    requires HeaderInRange(h) && h.length == |body|
    ensures var data := before + EncodeRecord(h, body) + after;
            var r := DecodeRecord(h, body);
            ParseRecord(data, |before|) == Parsed(r.ok, r.events, |before| + HeaderLength + |body|, false)
  {
    var data := before + EncodeRecord(h, body) + after;
    FrameEncodedRecord(before, h, body, after);
    assert FrameRecord(data, |before|) == Record(h, body, |before| + HeaderLength + |body|);
  }

  /** With fewer than 12 octets left, `parse` reports success, appends
      nothing and consumes the rest of the stream. */
  lemma ShortHeaderIsEnd(data: seq<Byte>, pos: nat)
    requires pos <= |data| < pos + HeaderLength
    ensures ParseRecord(data, pos) == Parsed(true, [], |data|, true)
  {
  }

  /** A record whose message is shorter than its Length fails without
      events, at the end of the stream. */
  lemma TruncatedRecordFails(data: seq<Byte>, pos: nat)
    requires pos + HeaderLength <= |data|
    requires pos + HeaderLength + DecodeHeader(data[pos..pos + HeaderLength]).value.length > |data|
    ensures ParseRecord(data, pos) == Parsed(false, [], |data|, true)
  {
  }

  /** `parse` always makes progress: it either consumes the rest of the
      stream and reports the end, or moves past a whole record. */
  lemma ParseProgress(data: seq<Byte>, pos: nat)
    requires pos <= |data|
    ensures var p := ParseRecord(data, pos);
            (p.atEnd ==> p.next == |data|) &&
            (!p.atEnd ==> p.next == pos + HeaderLength + DecodeHeader(data[pos..pos + HeaderLength]).value.length)
  {
  }

  /** TABLE_DUMP_V2 records are skipped whole, and a record with an
      unsupported Type fails without events. */
  lemma RecordTypes(h: MrtHeader, body: seq<Byte>)
    ensures h.mrtType == 13 ==> DecodeRecord(h, body) == Outcome(true, [])
    ensures h.mrtType !in {13, 16, 17} ==> DecodeRecord(h, body) == Outcome(false, [])
    ensures h.mrtType == 16 ==> DecodeRecord(h, body) == DecodeBgp4mp(body, h.subtype, Microseconds(h.timestamp))
  {
  }

  /** Every event of a BGP4MP record carries the header's time; with
      BGP4MP_ET, plus the microseconds that lead the message. */
  lemma RecordStamped(h: MrtHeader, body: seq<Byte>)
    ensures h.mrtType == 16 ==> StampedWith(DecodeRecord(h, body).events, Microseconds(h.timestamp))
    ensures h.mrtType == 17 && |body| >= 4 ==>
              StampedWith(DecodeRecord(h, body).events, Microseconds(h.timestamp) + U32(body, 0).value)
  {
    if h.mrtType == 16 {
      Bgp4mpStamped(body, h.subtype, Microseconds(h.timestamp));
    } else if h.mrtType == 17 && |body| >= 4 {
      Bgp4mpEtStamped(body, h.subtype, Microseconds(h.timestamp));
    }
  }
}
