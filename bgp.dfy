/** The bodies of the BGP messages carried by a BGP4MP record: OPEN,
    UPDATE, NOTIFICATION and KEEPALIVE (sections 4.2-4.5 of RFC 4271).
    `raw` is the message body, after the 19-octet BGP header. */
module BgpMessages {
  import opened Bytes
  import opened Addresses
  import opened Subnets
  import opened MrtEvents
  import opened Prefixes
  import opened Attributes

  // ---------------------------------------------------------------------
  // OPEN

  /** Version, My Autonomous System (of the message's AS width), Hold Time,
      BGP Identifier and Optional Parameters Length; the optional
      parameters themselves are not read. */
  function DecodeOpen(raw: seq<Byte>, ts: nat, info: Bgp4mpInfo): Outcome
  {
    var w := AsWidth(info.as4);
    var version := U8(raw, 0);
    var myAs := AsNumber(raw, 1, info.as4);
    var holdTime := U16(raw, 1 + w);
    var bgpId := U32(raw, 3 + w);
    var optLength := U8(raw, 7 + w);
    if version.None? || myAs.None? || holdTime.None? || bgpId.None? || optLength.None? then Outcome(false, [])
    else Outcome(true, [Open(ts, version.value, myAs.value, holdTime.value, bgpId.value)])
  }

  /** The wire form of the fixed part of an OPEN. */
  function EncodeOpen(version: nat, myAs: nat, holdTime: nat, bgpId: nat, optLength: nat, as4: bool): (s: seq<Byte>)
    requires version < 0x100 && optLength < 0x100 && holdTime < 0x1_0000 && bgpId < 0x1_0000_0000
    requires myAs < (if as4 then 0x1_0000_0000 else 0x1_0000)
    ensures |s| == 8 + AsWidth(as4)
  {
    [version as Byte] + EncodeNumber(myAs, as4) + Enc16(holdTime) + Enc32(bgpId) + [optLength as Byte]
  }

  /** An OPEN needs 10 octets with 2-octet AS numbers and 12 with 4-octet
      ones, and yields exactly one OPEN record. */
  lemma OpenWidth(raw: seq<Byte>, ts: nat, info: Bgp4mpInfo)
    ensures DecodeOpen(raw, ts, info).ok <==> |raw| >= 8 + AsWidth(info.as4)
    ensures DecodeOpen(raw, ts, info).ok ==>
              |DecodeOpen(raw, ts, info).events| == 1 && DecodeOpen(raw, ts, info).events[0].Open?
    ensures !DecodeOpen(raw, ts, info).ok ==> DecodeOpen(raw, ts, info).events == []
  {
  }

  /** Round trip: the fields of an encoded OPEN are read back. */
  lemma OpenRoundTrip(version: nat, myAs: nat, holdTime: nat, bgpId: nat, optLength: nat,
                      rest: seq<Byte>, ts: nat, info: Bgp4mpInfo)
    requires version < 0x100 && optLength < 0x100 && holdTime < 0x1_0000 && bgpId < 0x1_0000_0000
    requires myAs < (if info.as4 then 0x1_0000_0000 else 0x1_0000)
    ensures DecodeOpen(EncodeOpen(version, myAs, holdTime, bgpId, optLength, info.as4) + rest, ts, info) ==
            Outcome(true, [Open(ts, version, myAs, holdTime, bgpId)])
  {
    var w := AsWidth(info.as4);
    var raw := EncodeOpen(version, myAs, holdTime, bgpId, optLength, info.as4) + rest;
    assert raw[0] == version as Byte;
    U8RoundTrip(raw, 0, version);
    assert raw[1..1 + w] == EncodeNumber(myAs, info.as4);
    if info.as4 {
      U32RoundTrip(raw, 1, myAs);
    } else {
      U16RoundTrip(raw, 1, myAs);
    }
    assert raw[1 + w..3 + w] == Enc16(holdTime);
    U16RoundTrip(raw, 1 + w, holdTime);
    assert raw[3 + w..7 + w] == Enc32(bgpId);
    U32RoundTrip(raw, 3 + w, bgpId);
    assert raw[7 + w] == optLength as Byte;
    U8RoundTrip(raw, 7 + w, optLength);
  }

  // ---------------------------------------------------------------------
  // NOTIFICATION and KEEPALIVE

  /** Error code and error subcode; the data octets are not read. */
  function DecodeNotification(raw: seq<Byte>, ts: nat): Outcome
  {
    var code := U8(raw, 0);
    var subcode := U8(raw, 1);
    if code.None? || subcode.None? then Outcome(false, [])
    else Outcome(true, [Notification(ts, code.value, subcode.value)])
  }

  /** A NOTIFICATION needs two octets and records exactly them. */
  lemma NotificationFields(raw: seq<Byte>, ts: nat)
    ensures DecodeNotification(raw, ts).ok <==> |raw| >= 2
    ensures |raw| >= 2 ==> DecodeNotification(raw, ts).events == [Notification(ts, raw[0] as nat, raw[1] as nat)]
    ensures |raw| < 2 ==> DecodeNotification(raw, ts).events == []
  {
  }

  /** A KEEPALIVE is only the message header: it reads nothing. */
  function DecodeKeepalive(ts: nat): Outcome
  {
    Outcome(true, [Keepalive(ts)])
  }

  // ---------------------------------------------------------------------
  // UPDATE

  /** The length of the NLRI field, UPDATE message Length - 23 - Total Path
      Attribute Length - Withdrawn Routes Length, in 64-bit unsigned
      arithmetic. */
  function NlriLength(length: nat, tpal: nat, wrl: nat): (n: nat)
    ensures n < CountModulus
    ensures 23 + tpal + wrl <= length < CountModulus ==> n == length - 23 - tpal - wrl
    ensures length < 23 + tpal + wrl && tpal + wrl < CountModulus - 23 ==>
              n == length - 23 - tpal - wrl + CountModulus
  {
    var n := (length - 23 - tpal - wrl) % CountModulus;
    assert 23 + tpal + wrl <= length < CountModulus ==> n == length - 23 - tpal - wrl by {
      if 23 + tpal + wrl <= length < CountModulus {
        SmallCount(length - 23 - tpal - wrl);
      }
    }
    assert length < 23 + tpal + wrl && tpal + wrl < CountModulus - 23 ==>
             n == length - 23 - tpal - wrl + CountModulus by {
      if length < 23 + tpal + wrl && tpal + wrl < CountModulus - 23 {
        SmallCount(length - 23 - tpal - wrl + CountModulus);
      }
    }
    n
  }

  /** The NLRI prefixes from `pos` under `budget`, one announcement each,
      carrying the attributes of the attribute loop and its NEXT_HOP. */
  function DecodeNlri(raw: seq<Byte>, pos: nat, budget: nat, ts: nat, info: Bgp4mpInfo, attrs: PathAttributes): Outcome
    requires budget < CountModulus
  {
    match DecodePrefixes(raw, pos, budget)
    case PrefixListFailed => Outcome(false, [])
    case PrefixListRead(ns, _) =>
      DecodePrefixesWellFormed(raw, pos, budget);
      Outcome(true, Announcements(ts, info, Denoted(ns, info.afiIpv4), attrs, attrs.nextHop))
  }

  /** What follows the withdrawn routes at `pos`: the Total Path Attribute
      Length, the attribute loop from fresh attribute variables, and the
      NLRI right after the last attribute. */
  function DecodeUpdateTail(raw: seq<Byte>, pos: nat, wrl: nat, ts: nat, info: Bgp4mpInfo): Outcome
  {
    match U16(raw, pos)
    case None => Outcome(false, [])
    case Some(tpal) =>
      var a := DecodeAttributes(raw, pos + 2, tpal, ts, info, NoAttributes());
      if !a.ok then Outcome(false, a.events)
      else
        var n := DecodeNlri(raw, a.next, NlriLength(info.length, tpal, wrl), ts, info, a.attrs);
        Outcome(n.ok, a.events + n.events)
  }

  /** UPDATE: the Withdrawn Routes Length, the withdrawn prefixes (one
      withdrawal each, at once) and the rest.  Records appended before a
      failure stay appended. */
  function DecodeUpdate(raw: seq<Byte>, ts: nat, info: Bgp4mpInfo): Outcome
  {
    match U16(raw, 0)
    case None => Outcome(false, [])
    case Some(wrl) =>
      match DecodePrefixes(raw, 2, wrl)
      case PrefixListFailed => Outcome(false, [])
      case PrefixListRead(ws, p) =>
        DecodePrefixesWellFormed(raw, 2, wrl);
        var tail := DecodeUpdateTail(raw, p, wrl, ts, info);
        Outcome(tail.ok, Withdrawals(ts, info, Denoted(ws, info.afiIpv4)) + tail.events)
  }

  /** `parse_bgp4mp_message_update`. */
  method ParseUpdate(raw: seq<Byte>, ts: nat, info: Bgp4mpInfo) returns (r: Outcome)
    ensures r == DecodeUpdate(raw, ts, info)
  {
    var wrl := U16(raw, 0);
    if wrl.None? {
      return Outcome(false, []);
    }
    var ok, withdrawn, pos := ParsePrefixes(raw, 2, info.afiIpv4, wrl.value);
    if !ok {
      return Outcome(false, []);
    }
    var events := EmitWithdrawals(ts, info, withdrawn);
    var tail := ParseUpdateTail(raw, pos, wrl.value, ts, info);
    r := Outcome(tail.ok, events + tail.events);
  }

  /** The part of `parse_bgp4mp_message_update` after the withdrawn routes. */
  method ParseUpdateTail(raw: seq<Byte>, pos0: nat, wrl: nat, ts: nat, info: Bgp4mpInfo) returns (r: Outcome)
    ensures r == DecodeUpdateTail(raw, pos0, wrl, ts, info)
  {
    var tpal := U16(raw, pos0);
    if tpal.None? {
      return Outcome(false, []);
    }
    var ok, attrs, events, pos := ParseAttributes(raw, pos0 + 2, tpal.value, ts, info, NoAttributes());
    if !ok {
      return Outcome(false, events);
    }
    var nlriLength := (info.length - 23 - tpal.value - wrl) % CountModulus;
    assert nlriLength == NlriLength(info.length, tpal.value, wrl);
    var announced, end;
    ok, announced, end := ParsePrefixes(raw, pos, info.afiIpv4, nlriLength);
    if !ok {
      return Outcome(false, events);
    }
    var records, _ := EmitAnnouncements(ts, info, announced, attrs, attrs.nextHop);
    r := Outcome(true, events + records);
  }

  // ---------------------------------------------------------------------
  // Properties of UPDATE

  /** Every record an UPDATE appends is a withdrawal or an announcement of
      the peer with the record's timestamp, also when it fails. */
  lemma UpdateFromPeer(raw: seq<Byte>, ts: nat, info: Bgp4mpInfo)
    ensures FromPeer(DecodeUpdate(raw, ts, info).events, ts, info)
  {
    if U16(raw, 0).Some? {
      var wrl := U16(raw, 0).value;
      var d := DecodePrefixes(raw, 2, wrl);
      if d.PrefixListRead? {
        DecodePrefixesWellFormed(raw, 2, wrl);
        UpdateTailFromPeer(raw, d.next, wrl, ts, info);
        FromPeerAppend(Withdrawals(ts, info, Denoted(d.wires, info.afiIpv4)),
                       DecodeUpdateTail(raw, d.next, wrl, ts, info).events, ts, info);
      }
    }
  }

  lemma UpdateTailFromPeer(raw: seq<Byte>, pos: nat, wrl: nat, ts: nat, info: Bgp4mpInfo)
    ensures FromPeer(DecodeUpdateTail(raw, pos, wrl, ts, info).events, ts, info)
  {
    if U16(raw, pos).Some? {
      var tpal := U16(raw, pos).value;
      var a := DecodeAttributes(raw, pos + 2, tpal, ts, info, NoAttributes());
      DecodeAttributesFromPeer(raw, pos + 2, tpal, ts, info, NoAttributes());
      if a.ok {
        var n := DecodeNlri(raw, a.next, NlriLength(info.length, tpal, wrl), ts, info, a.attrs);
        FromPeerAppend(a.events, n.events, ts, info);
      }
    }
  }

  /** The withdrawn routes come first: one withdrawal per withdrawn prefix,
      in wire order, whatever happens later in the message. */
  lemma UpdateWithdrawalsFirst(raw: seq<Byte>, ts: nat, info: Bgp4mpInfo)
    requires |raw| >= 2
    requires DecodePrefixes(raw, 2, U16(raw, 0).value).PrefixListRead?
    ensures var d := DecodePrefixes(raw, 2, U16(raw, 0).value);
            AllWellFormed(d.wires) &&
            var w := Withdrawals(ts, info, Denoted(d.wires, info.afiIpv4));
            |w| == |d.wires| && DecodeUpdate(raw, ts, info).events[..|w|] == w
  {
    var d := DecodePrefixes(raw, 2, U16(raw, 0).value);
    DecodePrefixesWellFormed(raw, 2, U16(raw, 0).value);
    var w := Withdrawals(ts, info, Denoted(d.wires, info.afiIpv4));
    var tail := DecodeUpdateTail(raw, d.next, U16(raw, 0).value, ts, info);
    assert (w + tail.events)[..|w|] == w;
  }

  /** An UPDATE that fails to read the withdrawn routes appends nothing. */
  lemma UpdateWithdrawnFailure(raw: seq<Byte>, ts: nat, info: Bgp4mpInfo)
    requires |raw| < 2 || DecodePrefixes(raw, 2, U16(raw, 0).value).PrefixListFailed?
    ensures DecodeUpdate(raw, ts, info) == Outcome(false, [])
  {
  }

  /** A successful UPDATE ends with one announcement per NLRI prefix, in
      wire order, each with the attributes the loop accumulated (the moved
      containers empty after the first) and the attribute's NEXT_HOP. */
  lemma UpdateAnnouncementsLast(raw: seq<Byte>, pos: nat, wrl: nat, ts: nat, info: Bgp4mpInfo)
    requires DecodeUpdateTail(raw, pos, wrl, ts, info).ok
    ensures pos + 2 <= |raw|
    ensures var tpal := U16(raw, pos).value;
            var a := DecodeAttributes(raw, pos + 2, tpal, ts, info, NoAttributes());
            var budget := NlriLength(info.length, tpal, wrl);
            var d := DecodePrefixes(raw, a.next, budget);
            a.ok && d.PrefixListRead? && AllWellFormed(d.wires) &&
            var events := DecodeUpdateTail(raw, pos, wrl, ts, info).events;
            var n := |d.wires|;
            |events| >= n &&
            events[|events| - n..] == Announcements(ts, info, Denoted(d.wires, info.afiIpv4), a.attrs, a.attrs.nextHop) &&
            forall i | |events| - n <= i < |events| :: events[i].attributes.nextHop == a.attrs.nextHop
  {
    var tpal := U16(raw, pos).value;
    var a := DecodeAttributes(raw, pos + 2, tpal, ts, info, NoAttributes());
    var budget := NlriLength(info.length, tpal, wrl);
    DecodePrefixesWellFormed(raw, a.next, budget);
    var d := DecodePrefixes(raw, a.next, budget);
    var ann := Announcements(ts, info, Denoted(d.wires, info.afiIpv4), a.attrs, a.attrs.nextHop);
    var events := a.events + ann;
    assert events[|events| - |ann|..] == ann;
    forall i | |events| - |ann| <= i < |events|
      ensures events[i].attributes.nextHop == a.attrs.nextHop
    {
      assert events[i] == ann[i - (|events| - |ann|)];
    }
  }

  /** The smallest UPDATE: no withdrawn routes, no attributes, and a BGP
      length of 23, so no NLRI either. */
  lemma EmptyUpdate(ts: nat, info: Bgp4mpInfo)
    requires info.length == 23
    ensures DecodeUpdate([0, 0, 0, 0], ts, info) == Outcome(true, [])
  {
    var raw: seq<Byte> := [0, 0, 0, 0];
    assert U16(raw, 0) == Some(0);
    DecodePrefixesZero(raw, 2);
    assert U16(raw, 2) == Some(0);
    DecodePrefixesZero(raw, 4);
  }
}
