/** The path attribute loop of an UPDATE message.

    Each attribute is a flags octet, a type code octet, a length of one
    octet (or two when the Extended Length bit, 16, of the flags is set)
    and that many value octets (section 4.3 of RFC 4271).  The loop runs
    while an unsigned 64-bit budget, the Total Path Attribute Length, is
    positive, and charges each attribute its value length plus 3 (or 4).
    The value octets are copied into `t_raw` and decoded by type code. */
module Attributes {
  import opened Bytes
  import opened Addresses
  import opened Subnets
  import opened MrtEvents
  import opened Prefixes

  /** The result of decoding one attribute value: the attribute variables
      afterwards and the records it appended. */
  datatype AttrStep = AttrFailed | AttrRead(attrs: PathAttributes, events: seq<Event>)

  /** A list of big-endian numbers, or a failed read. */
  datatype NumberList = BadNumbers | ReadNumbers(values: seq<nat>)

  // ---------------------------------------------------------------------
  // Numbers

  /** The width of an AS number: 4 octets with the AS4 subtypes, else 2. */
  function AsWidth(as4: bool): nat
  {
    if as4 then 4 else 2
  }

  /** `count32` when `as4`, else `count16`. */
  function AsNumber(buf: seq<Byte>, pos: nat, as4: bool): (r: Option<nat>)
    ensures r.Some? <==> pos + AsWidth(as4) <= |buf|
  {
    if as4 then U32(buf, pos) else U16(buf, pos)
  }

  /** `count` numbers read one after the other from `pos`, each
      `AsWidth(wide)` octets wide. */
  function DecodeNumbers(buf: seq<Byte>, pos: nat, count: nat, wide: bool): (r: NumberList)
    ensures r.ReadNumbers? ==> |r.values| == count
    decreases count
  {
    if count == 0 then ReadNumbers([])
    else match AsNumber(buf, pos, wide)
      case None => BadNumbers
      case Some(v) =>
        match DecodeNumbers(buf, pos + AsWidth(wide), count - 1, wide)
        case BadNumbers => BadNumbers
        case ReadNumbers(vs) => ReadNumbers([v] + vs)
  }

  /** The wire form of one number. */
  function EncodeNumber(v: nat, wide: bool): (s: seq<Byte>)
    requires v < (if wide then 0x1_0000_0000 else 0x1_0000)
    ensures |s| == AsWidth(wide)
  {
    if wide then Enc32(v) else Enc16(v)
  }

  /** `buf` holds the wire forms of `vs` back to back from `pos` on. */
  predicate NumbersAt(buf: seq<Byte>, pos: nat, vs: seq<nat>, wide: bool)
    decreases |vs|
  {
    vs == [] ||
    (vs[0] < (if wide then 0x1_0000_0000 else 0x1_0000) &&
     pos + AsWidth(wide) <= |buf| && buf[pos..pos + AsWidth(wide)] == EncodeNumber(vs[0], wide) &&
     NumbersAt(buf, pos + AsWidth(wide), vs[1..], wide))
  }

  /** The loop that reads `count` numbers (AS path segment values or
      communities) and appends them to `values`. */
  method ReadNumberList(raw: seq<Byte>, pos0: nat, count: nat, wide: bool, values0: seq<nat>)
      returns (ok: bool, values: seq<nat>)
    ensures var r := DecodeNumbers(raw, pos0, count, wide);
            ok == r.ReadNumbers? && (ok ==> values == values0 + r.values)
  {
    var got: seq<nat> := [];
    var pos: nat := pos0;
    var i: nat := 0;
    while i < count
      invariant i <= count
      invariant DecodeNumbers(raw, pos0, count, wide) == Append(got, DecodeNumbers(raw, pos, count - i, wide))
    {
      var v := AsNumber(raw, pos, wide);
      if v.None? {
        return false, values0 + got;
      }
      AppendOne(got, v.value, DecodeNumbers(raw, pos + AsWidth(wide), count - i - 1, wide));
      got := got + [v.value];
      pos := pos + AsWidth(wide);
      i := i + 1;
    }
    assert got + [] == got;
    return true, values0 + got;
  }

  /** `vs` in front of the values of a successful read. */
  function Append(vs: seq<nat>, r: NumberList): (a: NumberList)
    ensures vs == [] ==> a == r
  {
    match r
    case BadNumbers => BadNumbers
    case ReadNumbers(ws) =>
      assert vs == [] ==> vs + ws == ws;
      ReadNumbers(vs + ws)
  }

  lemma AppendOne(vs: seq<nat>, v: nat, r: NumberList)
    ensures Append(vs, Append([v], r)) == Append(vs + [v], r)
  {
    if r.ReadNumbers? {
      assert vs + ([v] + r.values) == (vs + [v]) + r.values;
    }
  }

  /** The octets that `count` numbers occupy. */
  function Span(count: nat, wide: bool): nat
  {
    if wide then 4 * count else 2 * count
  }

  /** Reading `count` numbers succeeds exactly when they fit the buffer. */
  lemma {:induction false} DecodeNumbersSucceeds(buf: seq<Byte>, pos: nat, count: nat, wide: bool)
    requires pos <= |buf|
    ensures DecodeNumbers(buf, pos, count, wide).ReadNumbers? <==> pos + Span(count, wide) <= |buf|
    decreases count
  {
    if count > 0 && pos + AsWidth(wide) <= |buf| {
      DecodeNumbersSucceeds(buf, pos + AsWidth(wide), count - 1, wide);
      assert Span(count, wide) == AsWidth(wide) + Span(count - 1, wide);

    }
  }

  /** Round trip: numbers written back to back are read back. */
  lemma {:induction false} DecodeEncodedNumbers(buf: seq<Byte>, pos: nat, vs: seq<nat>, wide: bool)
    requires NumbersAt(buf, pos, vs, wide)
    ensures DecodeNumbers(buf, pos, |vs|, wide) == ReadNumbers(vs)
    decreases |vs|
  {
    if vs != [] {
      if wide {
        U32RoundTrip(buf, pos, vs[0]);
      } else {
        U16RoundTrip(buf, pos, vs[0]);
      }
      DecodeEncodedNumbers(buf, pos + AsWidth(wide), vs[1..], wide);
      assert [vs[0]] + vs[1..] == vs;
    }
  }

  // ---------------------------------------------------------------------
  // Extended communities

  /** `count48`: six octets shifted in one by one, followed by one more
      shift.  `y |= x[i]` is an addition here, because the low octet of
      `y` is zero whenever it is applied. */
  method Count48(x: seq<Byte>) returns (y: nat)
    requires |x| == 6
    ensures y == BigEndian(x) * 0x100
  {
    y := 0;
    for i := 0 to 6
      invariant y == BigEndian(x[..i]) * 0x100
    {
      assert x[..i + 1][..i] == x[..i];
      y := y + x[i] as nat;
      y := y * 0x100;
    }
    assert x[..6] == x;
  }

  /** The value of `count48` fits 56 bits, so the 64-bit shifts never
      overflow, and its low octet is zero. */
  lemma Count48Fits(x: seq<Byte>)
    requires |x| == 6
    ensures BigEndian(x) * 0x100 < 0x100_0000_0000_0000
    ensures (BigEndian(x) * 0x100) % 0x100 == 0
  {
    BigEndianBound(x);
    assert Pow256(6) == 0x1_0000_0000_0000;
  }

  /** The extended communities of an attribute value: one per full 8 octets,
      the i-th read as a 2-octet type and a 6-octet value at offset 4 * i
      (the loop advances by 4 octets only), and recorded as the `count48`
      of the value octets. */
  function ExtendedCommunities(t: seq<Byte>): (c: seq<nat>)
    ensures |c| == |t| / 8
  {
    seq(|t| / 8, i requires 0 <= i < |t| / 8 => ExtendedCommunityAt(t, i))
  }

  function ExtendedCommunityAt(t: seq<Byte>, i: nat): nat
    requires i < |t| / 8
  {
    assert 4 * i + 8 <= |t|;
    BigEndian(t[4 * i + 2..4 * i + 8]) * 0x100
  }

  /** The RFC 4360 loop.  Every read of it lies inside the attribute
      value, so it never fails. */
  method ReadExtendedCommunities(t: seq<Byte>, values0: seq<nat>) returns (ok: bool, values: seq<nat>)
    ensures ok && values == values0 + ExtendedCommunities(t)
  {
    values := values0;
    var pos := 0;
    for i := 0 to |t| / 8
      invariant pos == 4 * i
      invariant values == values0 + ExtendedCommunities(t)[..i]
    {
      assert 4 * i + 8 <= |t|;
      var typeField := U16(t, pos);
      var octets := Octets(t, pos + 2, 6);
      if typeField.None? || octets.None? {
        return false, values;
      }
      var community := Count48(octets.value);
      assert community == ExtendedCommunityAt(t, i);
      assert ExtendedCommunities(t)[..i + 1] == ExtendedCommunities(t)[..i] + [community];
      values := values + [community];
      pos := pos + 4;
    }
    assert ExtendedCommunities(t)[..|t| / 8] == ExtendedCommunities(t);
    ok := true;
  }

  // ---------------------------------------------------------------------
  // Attribute values

  /** ORIGIN codes 0, 1 and 2 name the origin; any other code leaves it as
      it was. */
  function OriginName(code: nat, current: string): string
  {
    if code == 0 then "IGP" else if code == 1 then "EGP" else if code == 2 then "INCOMPLETE" else current
  }

  /** ORIGIN (type 1): one code octet. */
  function DecodeOrigin(t: seq<Byte>, attrs: PathAttributes): AttrStep
  {
    match U8(t, 0)
    case None => AttrFailed
    case Some(code) => AttrRead(attrs.(origin := OriginName(code, attrs.origin)), [])
  }

  /** AS_PATH (type 2): a segment type octet, a segment length octet and
      that many AS numbers, appended to the path. */
  function DecodeAsPath(t: seq<Byte>, as4: bool, attrs: PathAttributes): AttrStep
  {
    match U8(t, 1)
    case None => AttrFailed
    case Some(n) =>
      match DecodeNumbers(t, 2, n, as4)
      case BadNumbers => AttrFailed
      case ReadNumbers(vs) => AttrRead(attrs.(asPath := attrs.asPath + vs), [])
  }

  /** NEXT_HOP (type 3): an IPv4 address. */
  function DecodeNextHop(t: seq<Byte>, attrs: PathAttributes): AttrStep
  {
    match V4At(t, 0)
    case None => AttrFailed
    case Some(a) => AttrRead(attrs.(nextHop := a), [])
  }

  /** MULTI_EXIT_DISC (type 4) and LOCAL_PREF (type 5): a 32-bit value. */
  function DecodeMed(t: seq<Byte>, attrs: PathAttributes): AttrStep
  {
    match U32(t, 0)
    case None => AttrFailed
    case Some(v) => AttrRead(attrs.(med := Some(v)), [])
  }

  function DecodeLocalPref(t: seq<Byte>, attrs: PathAttributes): AttrStep
  {
    match U32(t, 0)
    case None => AttrFailed
    case Some(v) => AttrRead(attrs.(localPref := Some(v)), [])
  }

  /** AGGREGATOR (type 7): an AS number of the message's width and an
      IPv4 address. */
  function DecodeAggregator(t: seq<Byte>, as4: bool, attrs: PathAttributes): AttrStep
  {
    match AsNumber(t, 0, as4)
    case None => AttrFailed
    case Some(asn) =>
      match V4At(t, AsWidth(as4))
      case None => AttrFailed
      case Some(a) => AttrRead(attrs.(aggregatorAs := Some(asn), aggregatorIp := a), [])
  }

  /** COMMUNITIES (type 8): one 32-bit value per full 4 octets, appended. */
  function DecodeCommunities(t: seq<Byte>, attrs: PathAttributes): AttrStep
  {
    match DecodeNumbers(t, 0, |t| / 4, true)
    case BadNumbers => AttrFailed
    case ReadNumbers(vs) => AttrRead(attrs.(communities := attrs.communities + vs), [])
  }

  /** The fixed part of MP_REACH_NLRI (section 3 of RFC 4760): AFI, SAFI,
      the next hop length `nh`, an IPv4 (AFI 1) or IPv6 (AFI 2) next hop read
      right after them, and a skip of `nh` + 1 octets.  The prefixes that
      follow are of the family of the AFI and are read under a budget of the
      attribute length minus 5 + `nh`, in 64-bit unsigned arithmetic. */
  datatype MpReachHeader = BadMpReach | MpReach(v4: bool, nextHop: Address, start: nat, budget: nat)

  function DecodeMpReachHeader(t: seq<Byte>): (h: MpReachHeader)
    ensures h.MpReach? <==>
              |t| >= 4 && U16(t, 0).value in {1, 2} && 5 + t[3] as nat <= |t| &&
              4 + (if U16(t, 0).value == 1 then 4 else 16) <= |t|
    ensures h.MpReach? ==> h.v4 == (U16(t, 0).value == 1)
    ensures h.MpReach? ==> h.nextHop == (if h.v4 then V4At(t, 4) else V6At(t, 4)).value
    ensures h.MpReach? ==> h.start == 5 + t[3] as nat && h.start <= |t| && h.budget < CountModulus
    ensures h.MpReach? && |t| < CountModulus ==> h.budget == |t| - h.start
  {
    if |t| < 4 then BadMpReach
    else
      var afi := U16(t, 0).value;
      var nh := t[3] as nat;
      var nextHop := if afi == 1 then V4At(t, 4) else if afi == 2 then V6At(t, 4) else None;
      if nextHop.None? || 4 + nh + 1 > |t| then BadMpReach
      else
        var budget := (|t| - (5 + nh)) % CountModulus;
        assert |t| < CountModulus ==> budget == |t| - (5 + nh) by {
          if |t| < CountModulus { SmallCount(|t| - (5 + nh)); }
        }
        MpReach(afi == 1, nextHop.value, 4 + nh + 1, budget)
  }

  /** MP_REACH_NLRI (type 14): each prefix becomes an announcement through
      the MP next hop, at once. */
  function DecodeMpReach(t: seq<Byte>, ts: nat, info: Bgp4mpInfo, attrs: PathAttributes): AttrStep
  {
    match DecodeMpReachHeader(t)
    case BadMpReach => AttrFailed
    case MpReach(v4, nextHop, start, budget) => DecodeMpAnnouncements(t, start, v4, budget, nextHop, ts, info, attrs)
  }

  /** The prefixes of MP_REACH_NLRI from `start` under `budget`, each
      announced through `nextHop`. */
  function DecodeMpAnnouncements(t: seq<Byte>, start: nat, v4: bool, budget: nat, nextHop: Address,
                                 ts: nat, info: Bgp4mpInfo, attrs: PathAttributes): AttrStep
    requires budget < CountModulus
  {
    match DecodePrefixes(t, start, budget)
    case PrefixListFailed => AttrFailed
    case PrefixListRead(ws, _) =>
      DecodePrefixesWellFormed(t, start, budget);
      var prefixes := Denoted(ws, v4);
      AttrRead(AfterAnnouncements(prefixes, attrs), Announcements(ts, info, prefixes, attrs, nextHop))
  }

  /** MP_UNREACH_NLRI (type 15, section 4 of RFC 4760): AFI and SAFI, then
      prefixes (IPv4 for AFI 1, IPv6 for any other) under a budget of the
      attribute length minus 3.  Each prefix becomes a withdrawal, at once. */
  function DecodeMpUnreach(t: seq<Byte>, ts: nat, info: Bgp4mpInfo, attrs: PathAttributes): AttrStep
  {
    if |t| < 3 then AttrFailed
    else
      var afi := U16(t, 0).value;
      var mpLength := (|t| - 3) % CountModulus;
      match DecodePrefixes(t, 3, mpLength)
      case PrefixListFailed => AttrFailed
      case PrefixListRead(ws, _) =>
        DecodePrefixesWellFormed(t, 3, mpLength);
        AttrRead(attrs, Withdrawals(ts, info, Denoted(ws, afi == 1)))
  }

  /** EXTENDED COMMUNITIES (type 16), appended to the communities. */
  function DecodeExtendedCommunities(t: seq<Byte>, attrs: PathAttributes): AttrStep
  {
    AttrRead(attrs.(communities := attrs.communities + ExtendedCommunities(t)), [])
  }

  /** The value octets `t` of an attribute with type code `code`.
      ATOMIC_AGGREGATE (6) sets its flag without reading; AS4_PATH (17),
      AS4_AGGREGATOR (18) and unknown codes are skipped. */
  function DecodeAttributeValue(code: nat, t: seq<Byte>, ts: nat, info: Bgp4mpInfo, attrs: PathAttributes): AttrStep
  {
    if code == 1 then DecodeOrigin(t, attrs)
    else if code == 2 then DecodeAsPath(t, info.as4, attrs)
    else if code == 3 then DecodeNextHop(t, attrs)
    else if code == 4 then DecodeMed(t, attrs)
    else if code == 5 then DecodeLocalPref(t, attrs)
    else if code == 6 then AttrRead(attrs.(atomicAggregate := true), [])
    else if code == 7 then DecodeAggregator(t, info.as4, attrs)
    else if code == 8 then DecodeCommunities(t, attrs)
    else if code == 14 then DecodeMpReach(t, ts, info, attrs)
    else if code == 15 then DecodeMpUnreach(t, ts, info, attrs)
    else if code == 16 then DecodeExtendedCommunities(t, attrs)
    else AttrRead(attrs, [])
  }

  // ---------------------------------------------------------------------
  // Framing

  /** The header of one attribute and where its value starts. */
  datatype AttributeHeader =
    | BadHeader
    | Header(code: nat, extended: bool, length: nat, start: nat)

  /** The Extended Length bit (16) of an attribute flags octet. */
  predicate ExtendedLength(flags: Byte)
  {
    (flags as int / 16) % 2 == 1
  }

  /** Where the value of an attribute starts, relative to its flags octet. */
  function HeaderSize(flags: Byte): nat
  {
    if ExtendedLength(flags) then 4 else 3
  }

  /** Flags and type code, then the length (two octets when the Extended
      Length bit is set), then the value, which must lie inside the buffer.
      The header decodes exactly when the flags, type code and length octets
      are there and the value they announce fits. */
  function DecodeAttributeHeader(buf: seq<Byte>, pos: nat): (h: AttributeHeader)
    ensures h.Header? <==>
              pos + 2 <= |buf| && pos + HeaderSize(buf[pos]) <= |buf| &&
              pos + HeaderSize(buf[pos]) +
                (if ExtendedLength(buf[pos]) then buf[pos + 2] as nat * 0x100 + buf[pos + 3] as nat
                 else buf[pos + 2] as nat) <= |buf|
    ensures h.Header? ==> h.extended == ExtendedLength(buf[pos]) && h.code == buf[pos + 1] as nat
    ensures h.Header? ==> h.start == pos + HeaderSize(buf[pos])
    ensures h.Header? ==>
              h.length == if h.extended then buf[pos + 2] as nat * 0x100 + buf[pos + 3] as nat else buf[pos + 2] as nat
    ensures h.Header? ==> h.start + h.length <= |buf| && h.length < 0x1_0000
  {
    if pos + 2 > |buf| then BadHeader
    else
      var extended := ExtendedLength(buf[pos]);
      var length := if extended then U16(buf, pos + 2) else U8(buf, pos + 2);
      var start := pos + (if extended then 4 else 3);
      if length.None? || start + length.value > |buf| then BadHeader
      else Header(buf[pos + 1] as nat, extended, length.value, start)
  }

  /** What the budget is charged for one attribute. */
  function Charge(h: AttributeHeader): nat
    requires h.Header?
  {
    if h.extended then h.length + 4 else h.length + 3
  }

  /** An attribute as framed: its type code and its value octets. */
  datatype RawAttribute = RawAttribute(code: nat, value: seq<Byte>)

  /** The attributes framed from a position: whether framing reached a zero
      budget, the attributes framed before it stopped, and where. */
  datatype Frames = Frames(complete: bool, raws: seq<RawAttribute>, next: nat)

  /** Framing of the attribute loop from `pos` under budget `l`. */
  function FrameAttributes(buf: seq<Byte>, pos: nat, l: nat): (f: Frames)
    requires l < CountModulus
    decreases |buf| - pos
  {
    if l == 0 then Frames(true, [], pos)
    else
      var h := DecodeAttributeHeader(buf, pos);
      if h.BadHeader? then Frames(false, [], pos)
      else
        var rest := FrameAttributes(buf, h.start + h.length, CountSub(l, Charge(h)));
        Frames(rest.complete, [RawAttribute(h.code, buf[h.start..h.start + h.length])] + rest.raws, rest.next)
  }

  /** `raws` in front of the attributes of a later framing. */
  function FramedAfter(raws: seq<RawAttribute>, f: Frames): (g: Frames)
    ensures g.complete == f.complete && g.next == f.next && g.raws == raws + f.raws
  {
    f.(raws := raws + f.raws)
  }

  /** The attribute variables and records after decoding attribute values
      in order, stopping at the first that fails. */
  datatype Applied = Applied(ok: bool, attrs: PathAttributes, events: seq<Event>)

  function ApplyAttributes(raws: seq<RawAttribute>, ts: nat, info: Bgp4mpInfo, attrs: PathAttributes): (a: Applied)
    decreases |raws|
  {
    if raws == [] then Applied(true, attrs, [])
    else match DecodeAttributeValue(raws[0].code, raws[0].value, ts, info, attrs)
      case AttrFailed => Applied(false, attrs, [])
      case AttrRead(attrs', events) =>
        var rest := ApplyAttributes(raws[1..], ts, info, attrs');
        Applied(rest.ok, rest.attrs, events + rest.events)
  }

  /** The outcome of the attribute loop: its verdict, the attribute
      variables, the records appended and where the loop stopped. */
  datatype AttrLoop = AttrLoop(ok: bool, attrs: PathAttributes, events: seq<Event>, next: nat)

  /** The attribute loop from `pos` under budget `l`: every attribute framed
      before a header fails is decoded in order until a value fails; the
      records appended before a failure stay appended.  (The value decoders
      do not affect framing, so framing first and decoding afterwards is
      the interleaved loop of the source; `ParseAttributes` is that loop.) */
  function DecodeAttributes(buf: seq<Byte>, pos: nat, l: nat, ts: nat, info: Bgp4mpInfo, attrs: PathAttributes): (r: AttrLoop)
    requires l < CountModulus
  {
    var f := FrameAttributes(buf, pos, l);
    var a := ApplyAttributes(f.raws, ts, info, attrs);
    AttrLoop(f.complete && a.ok, a.attrs, a.events, f.next)
  }

  // ---------------------------------------------------------------------
  // The source's code

  /** One attribute value, as the chain of `if`s in the loop body. */
  method ParseAttributeValue(code: nat, t: seq<Byte>, ts: nat, info: Bgp4mpInfo, attrs0: PathAttributes)
      returns (ok: bool, attrs: PathAttributes, events: seq<Event>)
    ensures var r := DecodeAttributeValue(code, t, ts, info, attrs0);
            ok == r.AttrRead? && (ok ==> attrs == r.attrs && events == r.events) && (!ok ==> events == [])
  {
    attrs, events := attrs0, [];
    if code == 1 {
      var v := U8(t, 0);
      if v.None? {
        return false, attrs, events;
      }
      attrs := attrs.(origin := OriginName(v.value, attrs.origin));
    } else if code == 2 {
      var header := U8(t, 1);
      if header.None? {
        return false, attrs, events;
      }
      var path;
      ok, path := ReadNumberList(t, 2, header.value, info.as4, attrs.asPath);
      if !ok {
        return false, attrs, events;
      }
      attrs := attrs.(asPath := path);
    } else if code == 3 {
      var a := V4At(t, 0);
      if a.None? {
        return false, attrs, events;
      }
      attrs := attrs.(nextHop := a.value);
    } else if code == 4 {
      var v := U32(t, 0);
      if v.None? {
        return false, attrs, events;
      }
      attrs := attrs.(med := Some(v.value));
    } else if code == 5 {
      var v := U32(t, 0);
      if v.None? {
        return false, attrs, events;
      }
      attrs := attrs.(localPref := Some(v.value));
    } else if code == 6 {
      attrs := attrs.(atomicAggregate := true);
    } else if code == 7 {
      var asn := AsNumber(t, 0, info.as4);
      if asn.None? {
        return false, attrs, events;
      }
      var a := V4At(t, AsWidth(info.as4));
      if a.None? {
        return false, attrs, events;
      }
      attrs := attrs.(aggregatorAs := Some(asn.value), aggregatorIp := a.value);
    } else if code == 8 {
      var cs;
      ok, cs := ReadNumberList(t, 0, |t| / 4, true, attrs.communities);
      if !ok {
        return false, attrs, events;
      }
      attrs := attrs.(communities := cs);
    } else if code == 14 {
      ok, attrs, events := ParseMpReach(t, ts, info, attrs);
      return;
    } else if code == 15 {
      ok, attrs, events := ParseMpUnreach(t, ts, info, attrs);
      return;
    } else if code == 16 {
      var cs;
      ok, cs := ReadExtendedCommunities(t, attrs.communities);
      attrs := attrs.(communities := cs);
    }
    ok := true;
  }

  method ParseMpReach(t: seq<Byte>, ts: nat, info: Bgp4mpInfo, attrs0: PathAttributes)
      returns (ok: bool, attrs: PathAttributes, events: seq<Event>)
    ensures var r := DecodeMpReach(t, ts, info, attrs0);
            ok == r.AttrRead? && (ok ==> attrs == r.attrs && events == r.events) && (!ok ==> events == [])
  {
    if |t| < 4 {
      return false, attrs0, [];
    }
    var afi := U16(t, 0).value;
    var nh := t[3] as nat;
    var mpLength := (|t| - (5 + nh)) % CountModulus;
    var nextHop: Option<Address>;
    if afi == 1 {
      nextHop := V4At(t, 4);
    } else if afi == 2 {
      nextHop := V6At(t, 4);
    } else {
      return false, attrs0, [];
    }
    if nextHop.None? || 4 + nh + 1 > |t| {
      return false, attrs0, [];
    }
    assert DecodeMpReachHeader(t) == MpReach(afi == 1, nextHop.value, 4 + nh + 1, mpLength);
    ok, attrs, events := AnnounceMpPrefixes(t, 4 + nh + 1, afi == 1, mpLength, nextHop.value, ts, info, attrs0);
  }

  /** The prefixes of MP_REACH_NLRI, each announced through the MP next hop. */
  method AnnounceMpPrefixes(t: seq<Byte>, start: nat, v4: bool, budget: nat, nextHop: Address, ts: nat, info: Bgp4mpInfo, attrs0: PathAttributes)
      returns (ok: bool, attrs: PathAttributes, events: seq<Event>)
    requires budget < CountModulus
    ensures var r := DecodeMpAnnouncements(t, start, v4, budget, nextHop, ts, info, attrs0);
            ok == r.AttrRead? && (ok ==> attrs == r.attrs && events == r.events) && (!ok ==> events == [])
  {
    attrs, events := attrs0, [];
    var prefix, end;
    ok, prefix, end := ParsePrefixes(t, start, v4, budget);
    if !ok {
      return false, attrs, events;
    }
    events, attrs := EmitAnnouncements(ts, info, prefix, attrs, nextHop);
  }

  method ParseMpUnreach(t: seq<Byte>, ts: nat, info: Bgp4mpInfo, attrs0: PathAttributes)
      returns (ok: bool, attrs: PathAttributes, events: seq<Event>)
    ensures var r := DecodeMpUnreach(t, ts, info, attrs0);
            ok == r.AttrRead? && (ok ==> attrs == r.attrs && events == r.events) && (!ok ==> events == [])
  {
    attrs, events := attrs0, [];
    if |t| < 3 {
      return false, attrs, events;
    }
    var afi := U16(t, 0).value;
    var prefix, end;
    var mpLength := (|t| - 3) % CountModulus;
    ok, prefix, end := ParsePrefixes(t, 3, afi == 1, mpLength);
    if !ok {
      return false, attrs, events;
    }
    events := EmitWithdrawals(ts, info, prefix);
  }

  /** The attribute loop of `parse_bgp4mp_message_update`. */
  method ParseAttributes(raw: seq<Byte>, pos0: nat, l0: nat, ts: nat, info: Bgp4mpInfo, attrs0: PathAttributes)
      returns (ok: bool, attrs: PathAttributes, events: seq<Event>, pos: nat)
    requires l0 < CountModulus
    ensures var r := DecodeAttributes(raw, pos0, l0, ts, info, attrs0);
            ok == r.ok && events == r.events && (ok ==> attrs == r.attrs && pos == r.next)
  {
    var l: nat := l0;
    pos, attrs, events := pos0, attrs0, [];
    ghost var seen: seq<RawAttribute> := [];
    while l > 0
      invariant l < CountModulus
      invariant FrameAttributes(raw, pos0, l0) == FramedAfter(seen, FrameAttributes(raw, pos, l))
      invariant ApplyAttributes(seen, ts, info, attrs0) == Applied(true, attrs, events)
      decreases |raw| - pos
    {
      var h := DecodeAttributeHeader(raw, pos);
      if h.BadHeader? {
        LoopEnds(raw, pos0, l0, ts, info, attrs0, seen, FrameAttributes(raw, pos, l), attrs, events);
        return false, attrs, events, pos;
      }
      var t := raw[h.start..h.start + h.length];
      ghost var x := RawAttribute(h.code, t);
      var pos': nat, l': nat := h.start + h.length, CountSub(l, Charge(h));
      FrameStep(raw, pos, l, seen, h, x, pos', l');
      var good, attrs', more := ParseAttributeValue(h.code, t, ts, info, attrs);
      if !good {
        ghost var rest := FrameAttributes(raw, pos', l');
        ApplyFails(seen, x, rest.raws, ts, info, attrs0);
        LoopFails(raw, pos0, l0, ts, info, attrs0, seen + [x], rest, events);
        return false, attrs, events, pos;
      }
      ApplyOneMore(seen, x, ts, info, attrs0);
      events := events + more;
      attrs := attrs';
      pos, l := pos', l';
      seen := seen + [x];
    }
    LoopEnds(raw, pos0, l0, ts, info, attrs0, seen, FrameAttributes(raw, pos, l), attrs, events);
    ok := true;
  }

  /** One turn of the framing loop: the attribute at `pos` joins the framed
      ones and framing goes on after its value. */
  lemma FrameStep(buf: seq<Byte>, pos: nat, l: nat, seen: seq<RawAttribute>, h: AttributeHeader, x: RawAttribute, pos': nat, l': nat)
    requires 0 < l < CountModulus && h == DecodeAttributeHeader(buf, pos) && h.Header?
    requires x == RawAttribute(h.code, buf[h.start..h.start + h.length])
    requires pos' == h.start + h.length && l' == CountSub(l, Charge(h))
    ensures FramedAfter(seen, FrameAttributes(buf, pos, l)) == FramedAfter(seen + [x], FrameAttributes(buf, pos', l'))
  {
    var rest := FrameAttributes(buf, pos', l');
    assert seen + ([x] + rest.raws) == (seen + [x]) + rest.raws;
  }

  /** One more attribute value decoded after a successful run. */
  lemma ApplyOneMore(seen: seq<RawAttribute>, x: RawAttribute, ts: nat, info: Bgp4mpInfo, attrs0: PathAttributes)
    requires ApplyAttributes(seen, ts, info, attrs0).ok
    requires DecodeAttributeValue(x.code, x.value, ts, info, ApplyAttributes(seen, ts, info, attrs0).attrs).AttrRead?
    ensures var a := ApplyAttributes(seen, ts, info, attrs0);
            var r := DecodeAttributeValue(x.code, x.value, ts, info, a.attrs);
            ApplyAttributes(seen + [x], ts, info, attrs0) == Applied(true, r.attrs, a.events + r.events)
  {
    ApplyConcat(seen, [x], ts, info, attrs0);
    var a := ApplyAttributes(seen, ts, info, attrs0);
    var r := DecodeAttributeValue(x.code, x.value, ts, info, a.attrs);
    assert [x][1..] == [];
    assert r.events + [] == r.events;
  }

  /** A value that fails ends the run: nothing after it is decoded. */
  lemma ApplyFails(seen: seq<RawAttribute>, x: RawAttribute, rest: seq<RawAttribute>, ts: nat, info: Bgp4mpInfo, attrs0: PathAttributes)
    requires ApplyAttributes(seen, ts, info, attrs0).ok
    requires DecodeAttributeValue(x.code, x.value, ts, info, ApplyAttributes(seen, ts, info, attrs0).attrs).AttrFailed?
    ensures var a := ApplyAttributes(seen, ts, info, attrs0);
            ApplyAttributes((seen + [x]) + rest, ts, info, attrs0) == Applied(false, a.attrs, a.events)
  {
    assert (seen + [x]) + rest == seen + ([x] + rest);
    ApplyConcat(seen, [x] + rest, ts, info, attrs0);
    var a := ApplyAttributes(seen, ts, info, attrs0);
    assert a.events + [] == a.events;
  }

  /** The loop's result when framing stops with nothing left to frame. */
  lemma LoopEnds(buf: seq<Byte>, pos0: nat, l0: nat, ts: nat, info: Bgp4mpInfo, attrs0: PathAttributes,
                 seen: seq<RawAttribute>, f: Frames, attrs: PathAttributes, events: seq<Event>)
    requires l0 < CountModulus && f.raws == []
    requires FrameAttributes(buf, pos0, l0) == FramedAfter(seen, f)
    requires ApplyAttributes(seen, ts, info, attrs0) == Applied(true, attrs, events)
    ensures var r := DecodeAttributes(buf, pos0, l0, ts, info, attrs0);
            r.ok == f.complete && r.attrs == attrs && r.events == events && r.next == f.next
  {
    assert seen + [] == seen;
  }

  /** The loop's result when a value fails. */
  lemma LoopFails(buf: seq<Byte>, pos0: nat, l0: nat, ts: nat, info: Bgp4mpInfo, attrs0: PathAttributes,
                  seen: seq<RawAttribute>, f: Frames, events: seq<Event>)
    requires l0 < CountModulus
    requires FrameAttributes(buf, pos0, l0) == FramedAfter(seen, f)
    requires !ApplyAttributes(seen + f.raws, ts, info, attrs0).ok
    requires ApplyAttributes(seen + f.raws, ts, info, attrs0).events == events
    ensures var r := DecodeAttributes(buf, pos0, l0, ts, info, attrs0);
            !r.ok && r.events == events
  {
  }

  /** Decoding two runs of attribute values one after the other. */
  lemma {:induction false} ApplyConcat(xs: seq<RawAttribute>, ys: seq<RawAttribute>, ts: nat, info: Bgp4mpInfo, attrs: PathAttributes)
    requires ApplyAttributes(xs, ts, info, attrs).ok
    ensures var a := ApplyAttributes(xs, ts, info, attrs);
            var b := ApplyAttributes(ys, ts, info, a.attrs);
            ApplyAttributes(xs + ys, ts, info, attrs) == Applied(b.ok, b.attrs, a.events + b.events)
    decreases |xs|
  {
    if xs == [] {
      assert xs + ys == ys;
    } else {
      var r := DecodeAttributeValue(xs[0].code, xs[0].value, ts, info, attrs);
      SplitHead(xs, ys);
      ApplyConcat(xs[1..], ys, ts, info, r.attrs);
      var a := ApplyAttributes(xs[1..], ts, info, r.attrs);
      var b := ApplyAttributes(ys, ts, info, a.attrs);
      EventsAssociate(r.events, a.events, b.events);
    }
  }

  lemma SplitHead(xs: seq<RawAttribute>, ys: seq<RawAttribute>)
    requires xs != []
    ensures (xs + ys)[0] == xs[0] && (xs + ys)[1..] == xs[1..] + ys
  {
  }

  lemma EventsAssociate(a: seq<Event>, b: seq<Event>, c: seq<Event>)
    ensures a + (b + c) == (a + b) + c
  {
  }

  // ---------------------------------------------------------------------
  // Properties

  /** The budget is charged exactly the octets the attribute occupies. */
  lemma ChargeIsSize(buf: seq<Byte>, pos: nat)
    requires DecodeAttributeHeader(buf, pos).Header?
    ensures var h := DecodeAttributeHeader(buf, pos);
            Charge(h) == h.start + h.length - pos && pos < h.start + h.length <= |buf|
  {
  }

  /** Framing never moves backwards, and ends inside the buffer once it has
      read an attribute. */
  lemma {:induction false} FrameAttributesBounds(buf: seq<Byte>, pos: nat, l: nat)
    requires l < CountModulus
    ensures pos <= FrameAttributes(buf, pos, l).next
    ensures l > 0 && FrameAttributes(buf, pos, l).complete ==> FrameAttributes(buf, pos, l).next <= |buf|
    decreases |buf| - pos
  {
    var h := DecodeAttributeHeader(buf, pos);
    if l > 0 && h.Header? {
      ChargeIsSize(buf, pos);
      FrameAttributesBounds(buf, h.start + h.length, CountSub(l, Charge(h)));
    }
  }

  /** On a buffer shorter than 2^64 octets a complete framing consumes
      exactly the Total Path Attribute Length. */
  lemma {:induction false} FrameAttributesExact(buf: seq<Byte>, pos: nat, l: nat)
    requires l < CountModulus && |buf| < CountModulus
    requires FrameAttributes(buf, pos, l).complete
    ensures FrameAttributes(buf, pos, l).next == pos + l
    decreases |buf| - pos
  {
    if l > 0 {
      var h := DecodeAttributeHeader(buf, pos);
      ChargeIsSize(buf, pos);
      var rest := CountSub(l, Charge(h));
      FrameAttributesExact(buf, h.start + h.length, rest);
      FrameAttributesBounds(buf, h.start + h.length, rest);
    }
  }

  /** An attribute as it is sent: flags, type code and value. */
  datatype WireAttribute = WireAttribute(flags: Byte, code: Byte, value: seq<Byte>)

  /** The value's length fits the length field that the flags select. */
  predicate Encodable(w: WireAttribute)
  {
    |w.value| < (if ExtendedLength(w.flags) then 0x1_0000 else 0x100)
  }

  predicate AllEncodable(ws: seq<WireAttribute>)
  {
    forall i | 0 <= i < |ws| :: Encodable(ws[i])
  }

  /** The wire form of one attribute: flags, type code, the value's length
      in one octet (two with the Extended Length bit), and the value. */
  function EncodeAttribute(w: WireAttribute): (s: seq<Byte>)
    requires Encodable(w)
    ensures |s| == HeaderSize(w.flags) + |w.value|
  {
    [w.flags, w.code] + (if ExtendedLength(w.flags) then Enc16(|w.value|) else [|w.value| as Byte]) + w.value
  }

  /** The wire form of a run of attributes. */
  function EncodeAttributes(ws: seq<WireAttribute>): seq<Byte>
    requires AllEncodable(ws)
  {
    if ws == [] then [] else EncodeAttribute(ws[0]) + EncodeAttributes(ws[1..])
  }

  /** The attributes as framing sees them: type code and value. */
  function Framed(ws: seq<WireAttribute>): (raws: seq<RawAttribute>)
    ensures |raws| == |ws|
    ensures forall i | 0 <= i < |ws| :: raws[i] == RawAttribute(ws[i].code as nat, ws[i].value)
  {
    seq(|ws|, i requires 0 <= i < |ws| => RawAttribute(ws[i].code as nat, ws[i].value))
  }

  /** Round trip of one attribute: its header decodes to its type code,
      Extended Length bit and value length, its value is the framed slice,
      and the budget is charged exactly its encoded size. */
  lemma AttributeRoundTrip(buf: seq<Byte>, pos: nat, w: WireAttribute)
    requires Encodable(w)
    requires pos + |EncodeAttribute(w)| <= |buf| && buf[pos..pos + |EncodeAttribute(w)|] == EncodeAttribute(w)
    ensures var h := DecodeAttributeHeader(buf, pos);
            h == Header(w.code as nat, ExtendedLength(w.flags), |w.value|, pos + HeaderSize(w.flags)) &&
            buf[h.start..h.start + h.length] == w.value &&
            Charge(h) == |EncodeAttribute(w)|
  {
    var field := if ExtendedLength(w.flags) then Enc16(|w.value|) else [|w.value| as Byte];
    assert EncodeAttribute(w) == [w.flags, w.code] + (field + w.value);
    SplitSlice(buf, pos, [w.flags, w.code], field + w.value);
    SplitSlice(buf, pos + 2, field, w.value);
    assert buf[pos] == buf[pos..pos + 2][0] && buf[pos + 1] == buf[pos..pos + 2][1];
    if ExtendedLength(w.flags) {
      U16RoundTrip(buf, pos + 2, |w.value|);
    } else {
      assert buf[pos + 2] == buf[pos + 2..pos + 3][0];
      U8RoundTrip(buf, pos + 2, |w.value|);
    }
  }

  /** Round trip of the attribute loop's framing: a run of encoded
      attributes under a budget of its encoded size frames to the type
      codes and values in wire order and stops right after them. */
  lemma FrameEncodedAttributes(buf: seq<Byte>, pos: nat, ws: seq<WireAttribute>)
    requires AllEncodable(ws) && |EncodeAttributes(ws)| < CountModulus
    requires pos + |EncodeAttributes(ws)| <= |buf| && buf[pos..pos + |EncodeAttributes(ws)|] == EncodeAttributes(ws)
    ensures FrameAttributes(buf, pos, |EncodeAttributes(ws)|) == Frames(true, Framed(ws), pos + |EncodeAttributes(ws)|)
  {
    EncodedAtSlice(buf, pos, ws);
    FrameEncodedAt(buf, pos, ws);
  }

  /** The attributes `ws` are encoded one after the other from `pos`. */
  predicate EncodedAt(buf: seq<Byte>, pos: nat, ws: seq<WireAttribute>)
    decreases |ws|
  {
    ws != [] ==>
      Encodable(ws[0]) &&
      var n := |EncodeAttribute(ws[0])|;
      pos + n <= |buf| && buf[pos..pos + n] == EncodeAttribute(ws[0]) && EncodedAt(buf, pos + n, ws[1..])
  }

  /** A slice holding the encoding of a run holds each attribute's
      encoding in turn. */
  lemma {:induction false} EncodedAtSlice(buf: seq<Byte>, pos: nat, ws: seq<WireAttribute>)
    requires AllEncodable(ws)
    requires pos + |EncodeAttributes(ws)| <= |buf| && buf[pos..pos + |EncodeAttributes(ws)|] == EncodeAttributes(ws)
    ensures EncodedAt(buf, pos, ws)
    decreases |ws|
  {
    if ws != [] {
      EncodedAttributesSplit(buf, pos, ws);
      EncodedAtSlice(buf, pos + |EncodeAttribute(ws[0])|, ws[1..]);
    }
  }

  /** The framing of attributes encoded one after the other. */
  lemma {:induction false} FrameEncodedAt(buf: seq<Byte>, pos: nat, ws: seq<WireAttribute>)
    requires AllEncodable(ws) && |EncodeAttributes(ws)| < CountModulus && EncodedAt(buf, pos, ws)
    ensures FrameAttributes(buf, pos, |EncodeAttributes(ws)|) == Frames(true, Framed(ws), pos + |EncodeAttributes(ws)|)
    decreases |ws|
  {
    if ws != [] {
      var n0 := |EncodeAttribute(ws[0])|;
      var m := |EncodeAttributes(ws[1..])|;
      AllEncodableTail(ws);
      assert |EncodeAttributes(ws)| == n0 + m;
      FrameEncodedAt(buf, pos + n0, ws[1..]);
      AttributeRoundTrip(buf, pos, ws[0]);
      FrameOne(buf, pos, |EncodeAttributes(ws)|, n0, m, DecodeAttributeHeader(buf, pos),
               RawAttribute(ws[0].code as nat, ws[0].value), FrameAttributes(buf, pos + n0, m));
      FramedCons(ws);
    } else {
      assert EncodeAttributes(ws) == [] && Framed(ws) == [];
    }
  }

  lemma AllEncodableTail(ws: seq<WireAttribute>)
    requires ws != [] && AllEncodable(ws)
    ensures AllEncodable(ws[1..])
  {
    forall i | 0 <= i < |ws[1..]|
      ensures Encodable(ws[1..][i])
    {
      assert ws[1..][i] == ws[i + 1];
    }
  }

  /** The first step of framing, once the header at `pos` is known to span
      `n` octets and the framing after it is known. */
  lemma FrameOne(buf: seq<Byte>, pos: nat, l: nat, n: nat, m: nat, h: AttributeHeader, x: RawAttribute, tail: Frames)
    requires l == n + m && 0 < l < CountModulus && h == DecodeAttributeHeader(buf, pos) && h.Header?
    requires x == RawAttribute(h.code, buf[h.start..h.start + h.length])
    requires h.start + h.length == pos + n && Charge(h) == n
    requires tail == FrameAttributes(buf, pos + n, m)
    ensures FrameAttributes(buf, pos, l) == tail.(raws := [x] + tail.raws)
  {
    assert CountSub(l, Charge(h)) == m;
  }

  lemma FramedCons(ws: seq<WireAttribute>)
    requires ws != []
    ensures Framed(ws) == [RawAttribute(ws[0].code as nat, ws[0].value)] + Framed(ws[1..])
  {
  }

  /** A run of encoded attributes is its first attribute's encoding
      followed by the encoding of the others. */
  lemma EncodedAttributesSplit(buf: seq<Byte>, pos: nat, ws: seq<WireAttribute>)
    requires ws != [] && AllEncodable(ws)
    requires pos + |EncodeAttributes(ws)| <= |buf| && buf[pos..pos + |EncodeAttributes(ws)|] == EncodeAttributes(ws)
    ensures AllEncodable(ws[1..])
    ensures var e0 := EncodeAttribute(ws[0]);
            var rest := EncodeAttributes(ws[1..]);
            |EncodeAttributes(ws)| == |e0| + |rest| &&
            buf[pos..pos + |e0|] == e0 && buf[pos + |e0|..pos + |e0| + |rest|] == rest
  {
    AllEncodableTail(ws);
    var e := EncodeAttributes(ws);
    var e0 := EncodeAttribute(ws[0]);
    var rest := EncodeAttributes(ws[1..]);
    assert e == e0 + rest;
    assert buf[pos..pos + |e0|] == e[..|e0|] == e0;
    assert buf[pos + |e0|..pos + |e0| + |rest|] == e[|e0|..] == rest;
  }

  /** Hence a successful attribute loop ends exactly Total Path Attribute
      Length octets after it started. */
  lemma DecodeAttributesExact(buf: seq<Byte>, pos: nat, l: nat, ts: nat, info: Bgp4mpInfo, attrs: PathAttributes)
    requires l < CountModulus && |buf| < CountModulus
    requires DecodeAttributes(buf, pos, l, ts, info, attrs).ok
    ensures DecodeAttributes(buf, pos, l, ts, info, attrs).next == pos + l
  {
    FrameAttributesExact(buf, pos, l);
  }

  /** Every record an attribute appends is a route record of the peer. */
  lemma AttributeValueFromPeer(code: nat, t: seq<Byte>, ts: nat, info: Bgp4mpInfo, attrs: PathAttributes)
    requires DecodeAttributeValue(code, t, ts, info, attrs).AttrRead?
    ensures FromPeer(DecodeAttributeValue(code, t, ts, info, attrs).events, ts, info)
  {
  }

  /** Every record the loop appends is a route record of the peer, also
      when the loop fails. */
  lemma {:induction false} ApplyAttributesFromPeer(raws: seq<RawAttribute>, ts: nat, info: Bgp4mpInfo, attrs: PathAttributes)
    ensures FromPeer(ApplyAttributes(raws, ts, info, attrs).events, ts, info)
    decreases |raws|
  {
    if raws != [] {
      var r := DecodeAttributeValue(raws[0].code, raws[0].value, ts, info, attrs);
      if r.AttrRead? {
        AttributeValueFromPeer(raws[0].code, raws[0].value, ts, info, attrs);
        ApplyAttributesFromPeer(raws[1..], ts, info, r.attrs);
        FromPeerAppend(r.events, ApplyAttributes(raws[1..], ts, info, r.attrs).events, ts, info);
      }
    }
  }

  lemma DecodeAttributesFromPeer(buf: seq<Byte>, pos: nat, l: nat, ts: nat, info: Bgp4mpInfo, attrs: PathAttributes)
    requires l < CountModulus
    ensures FromPeer(DecodeAttributes(buf, pos, l, ts, info, attrs).events, ts, info)
  {
    ApplyAttributesFromPeer(FrameAttributes(buf, pos, l).raws, ts, info, attrs);
  }

  /** AS4_PATH, AS4_AGGREGATOR and unknown type codes change nothing and
      append nothing. */
  lemma SkippedCodes(code: nat, t: seq<Byte>, ts: nat, info: Bgp4mpInfo, attrs: PathAttributes)
    requires code !in {1, 2, 3, 4, 5, 6, 7, 8, 14, 15, 16}
    ensures DecodeAttributeValue(code, t, ts, info, attrs) == AttrRead(attrs, [])
  {
  }

  /** ORIGIN names codes 0, 1 and 2, keeps the origin for any other code and
      fails only on an empty value. */
  lemma OriginCodes(t: seq<Byte>, attrs: PathAttributes)
    ensures t == [] <==> DecodeOrigin(t, attrs).AttrFailed?
    ensures t != [] && t[0] == 0 ==> DecodeOrigin(t, attrs).attrs.origin == "IGP"
    ensures t != [] && t[0] == 1 ==> DecodeOrigin(t, attrs).attrs.origin == "EGP"
    ensures t != [] && t[0] == 2 ==> DecodeOrigin(t, attrs).attrs.origin == "INCOMPLETE"
    ensures t != [] && t[0] as nat > 2 ==> DecodeOrigin(t, attrs) == AttrRead(attrs, [])
  {
  }

  /** AS_PATH succeeds exactly when the segment's numbers fit the value,
      and appends one number per segment entry. */
  lemma AsPathEntries(t: seq<Byte>, as4: bool, attrs: PathAttributes)
    ensures DecodeAsPath(t, as4, attrs).AttrRead? <==>
              |t| >= 2 && 2 + Span(t[1] as nat, as4) <= |t|
    ensures DecodeAsPath(t, as4, attrs).AttrRead? ==>
              var a := DecodeAsPath(t, as4, attrs).attrs;
              a == attrs.(asPath := a.asPath) && |a.asPath| == |attrs.asPath| + t[1] as nat &&
              a.asPath[..|attrs.asPath|] == attrs.asPath
  {
    if |t| >= 2 {
      DecodeNumbersSucceeds(t, 2, t[1] as nat, as4);
    }
  }

  /** COMMUNITIES never fails and appends one value per full 4 octets; a
      value written as 32-bit numbers reads back. */
  lemma CommunitiesCount(t: seq<Byte>, attrs: PathAttributes)
    ensures DecodeCommunities(t, attrs).AttrRead?
    ensures var a := DecodeCommunities(t, attrs).attrs;
            a == attrs.(communities := a.communities) &&
            |a.communities| == |attrs.communities| + |t| / 4
  {
    DecodeNumbersSucceeds(t, 0, |t| / 4, true);
  }

  lemma CommunitiesRoundTrip(t: seq<Byte>, vs: seq<nat>, attrs: PathAttributes)
    requires NumbersAt(t, 0, vs, true) && |t| / 4 == |vs|
    ensures DecodeCommunities(t, attrs) == AttrRead(attrs.(communities := attrs.communities + vs), [])
  {
    DecodeEncodedNumbers(t, 0, vs, true);
  }

  /** The prefixes of MP_REACH_NLRI are read under a budget of exactly the
      octets left in the value, so a successful decoding of an attribute
      (whose length is 16 bits) ends at the end of its value. */
  lemma MpReachFillsValue(t: seq<Byte>, ts: nat, info: Bgp4mpInfo, attrs: PathAttributes)
    requires |t| < 0x1_0000 && DecodeMpReach(t, ts, info, attrs).AttrRead?
    ensures var h := DecodeMpReachHeader(t);
            h.MpReach? && h.budget == |t| - h.start &&
            DecodePrefixes(t, h.start, h.budget).PrefixListRead? && DecodePrefixes(t, h.start, h.budget).next == |t|
  {
    var h := DecodeMpReachHeader(t);
    DecodePrefixesExact(t, h.start, h.budget);
  }

  /** The same for MP_UNREACH_NLRI, whose prefixes start after 3 octets. */
  lemma MpUnreachFillsValue(t: seq<Byte>, ts: nat, info: Bgp4mpInfo, attrs: PathAttributes)
    requires |t| < 0x1_0000 && DecodeMpUnreach(t, ts, info, attrs).AttrRead?
    ensures 3 <= |t| && DecodePrefixes(t, 3, |t| - 3).PrefixListRead? && DecodePrefixes(t, 3, |t| - 3).next == |t|
  {
    var n := |t| - 3;
    SmallCount(n);
    assert DecodePrefixes(t, 3, n).PrefixListRead?;
    DecodePrefixesExact(t, 3, n);
  }

  /** MP_UNREACH_NLRI appends one withdrawal per prefix and leaves the
      attribute variables alone. */
  lemma MpUnreachEvents(t: seq<Byte>, ts: nat, info: Bgp4mpInfo, attrs: PathAttributes)
    requires DecodeMpUnreach(t, ts, info, attrs).AttrRead?
    ensures var r := DecodeMpUnreach(t, ts, info, attrs);
            r.attrs == attrs && forall i | 0 <= i < |r.events| :: r.events[i].Withdrawal?
  {
  }

  /** MP_REACH_NLRI succeeds only for AFI 1 and 2, and every announcement
      it appends goes through the next hop read after the AFI, SAFI and
      next hop length octets. */
  lemma MpReachEvents(t: seq<Byte>, ts: nat, info: Bgp4mpInfo, attrs: PathAttributes)
    requires DecodeMpReach(t, ts, info, attrs).AttrRead?
    ensures |t| >= 4 && U16(t, 0).value in {1, 2}
    ensures var nextHop := if U16(t, 0).value == 1 then V4At(t, 4) else V6At(t, 4);
            var r := DecodeMpReach(t, ts, info, attrs);
            nextHop.Some? &&
            forall i | 0 <= i < |r.events| :: r.events[i].Announcement? && r.events[i].attributes.nextHop == nextHop.value
  {
  }
}
