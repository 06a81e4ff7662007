/** The BGP4MP record bodies (section 4.4 of RFC 6396): state changes and
    BGP messages, each with 2-octet or 4-octet AS numbers, and the
    extended-timestamp variant of the record type. */
module Bgp4mp {
  import opened Bytes
  import opened Addresses
  import opened MrtEvents
  import opened Attributes
  import opened BgpMessages

  /** The fields every BGP4MP body starts with: Peer AS Number, Local AS
      Number, Interface Index and Address Family, and where the peer
      address starts. */
  datatype PeerHeader = BadPeerHeader | PeerHeader(peerAs: nat, localAs: nat, interfaceIndex: nat, afi: nat, next: nat)

  /** Two AS numbers of the subtype's width, then two 2-octet fields. */
  function DecodePeerHeader(raw: seq<Byte>, as4: bool): (h: PeerHeader)
    ensures h.PeerHeader? <==> 2 * AsWidth(as4) + 4 <= |raw|
    ensures h.PeerHeader? ==>
              h.next == 2 * AsWidth(as4) + 4 &&
              h.peerAs == AsNumber(raw, 0, as4).value && h.localAs == AsNumber(raw, AsWidth(as4), as4).value &&
              h.interfaceIndex == U16(raw, 2 * AsWidth(as4)).value && h.afi == U16(raw, 2 * AsWidth(as4) + 2).value
  {
    var w := AsWidth(as4);
    var peerAs := AsNumber(raw, 0, as4);
    var localAs := AsNumber(raw, w, as4);
    var interfaceIndex := U16(raw, 2 * w);
    var afi := U16(raw, 2 * w + 2);
    if peerAs.None? || localAs.None? || interfaceIndex.None? || afi.None? then BadPeerHeader
    else PeerHeader(peerAs.value, localAs.value, interfaceIndex.value, afi.value, 2 * w + 4)
  }

  /** The peer and local addresses of the family of the AFI (1: IPv4, 2:
      IPv6; any other AFI fails), and where they end. */
  datatype PeerAddresses = BadAddresses | PeerAddresses(peerIp: Address, localIp: Address, next: nat)

  function DecodePeerAddresses(raw: seq<Byte>, pos: nat, afi: nat): (a: PeerAddresses)
    ensures a.PeerAddresses? <==> afi in {1, 2} && pos + (if afi == 1 then 8 else 32) <= |raw|
    ensures a.PeerAddresses? ==> a.next == pos + (if afi == 1 then 8 else 32)
    ensures a.PeerAddresses? && afi == 1 ==>
              a.peerIp == FromV4(raw[pos..pos + 4]) && a.localIp == FromV4(raw[pos + 4..pos + 8])
    ensures a.PeerAddresses? && afi == 2 ==>
              a.peerIp == FromV6(raw[pos..pos + 16]) && a.localIp == FromV6(raw[pos + 16..pos + 32])
  {
    var n := if afi == 1 then 4 else 16;
    var peerIp := if afi == 1 then V4At(raw, pos) else V6At(raw, pos);
    var localIp := if afi == 1 then V4At(raw, pos + n) else V6At(raw, pos + n);
    if afi !in {1, 2} || peerIp.None? || localIp.None? then BadAddresses
    else PeerAddresses(peerIp.value, localIp.value, pos + 2 * n)
  }

  // ---------------------------------------------------------------------
  // BGP4MP_STATE_CHANGE and BGP4MP_STATE_CHANGE_AS4

  /** The peer header, both addresses, Old State and New State; one state
      change record. */
  function DecodeStateChange(raw: seq<Byte>, as4: bool, ts: nat): (r: Outcome)
    ensures r.ok ==> |r.events| == 1 && r.events[0].StateChange? && r.events[0].timestamp == ts
    ensures !r.ok ==> r.events == []
  {
    match DecodePeerHeader(raw, as4)
    case BadPeerHeader => Outcome(false, [])
    case PeerHeader(peerAs, _, _, afi, p) =>
      match DecodePeerAddresses(raw, p, afi)
      case BadAddresses => Outcome(false, [])
      case PeerAddresses(peerIp, _, q) =>
        var oldState := U16(raw, q);
        var newState := U16(raw, q + 2);
        if oldState.None? || newState.None? then Outcome(false, [])
        else Outcome(true, [StateChange(ts, peerIp, peerAs, oldState.value, newState.value)])
  }

  /** The octets of the peer and local addresses of a family: 4 for AFI 1,
      16 otherwise. */
  function AddressWidth(afi: nat): nat
  {
    if afi == 1 then 4 else 16
  }

  /** The address built from the octets of an address field. */
  function AddressOf(afi: nat, octets: seq<Byte>): Address
    requires |octets| == AddressWidth(afi)
  {
    if afi == 1 then FromV4(octets) else FromV6(octets)
  }

  /** A state change needs 8 + 12 octets (2-octet AS, IPv4), 12 + 12 (4-octet
      AS, IPv4), 8 + 36 or 12 + 36 (IPv6), and an AFI of 1 or 2.  Its one
      record holds the Peer AS Number, the Peer IP Address read right after
      the peer header, and the Old State and New State after both
      addresses. */
  lemma StateChangeSize(raw: seq<Byte>, as4: bool, ts: nat)
    ensures DecodeStateChange(raw, as4, ts).ok <==>
              var h := DecodePeerHeader(raw, as4);
              h.PeerHeader? && h.afi in {1, 2} &&
              |raw| >= 2 * AsWidth(as4) + 4 + (if h.afi == 1 then 12 else 36)
    ensures DecodeStateChange(raw, as4, ts).ok ==>
              var p := 2 * AsWidth(as4) + 4;
              var afi := U16(raw, p - 2).value;
              var n := AddressWidth(afi);
              DecodeStateChange(raw, as4, ts).events ==
                [StateChange(ts, AddressOf(afi, raw[p..p + n]), AsNumber(raw, 0, as4).value,
                             U16(raw, p + 2 * n).value, U16(raw, p + 2 * n + 2).value)]
    ensures !DecodeStateChange(raw, as4, ts).ok ==> DecodeStateChange(raw, as4, ts).events == []
  {
  }

  /** The wire form of the peer header: Peer AS Number and Local AS Number
      of the subtype's width, Interface Index and Address Family. */
  function EncodePeerHeader(peerAs: nat, localAs: nat, interfaceIndex: nat, afi: nat, as4: bool): (s: seq<Byte>)
    requires peerAs < (if as4 then 0x1_0000_0000 else 0x1_0000) && localAs < (if as4 then 0x1_0000_0000 else 0x1_0000)
    requires interfaceIndex < 0x1_0000 && afi < 0x1_0000
    ensures |s| == 2 * AsWidth(as4) + 4
  {
    EncodeNumber(peerAs, as4) + EncodeNumber(localAs, as4) + Enc16(interfaceIndex) + Enc16(afi)
  }

  /** Round trip of the peer header, whatever follows it. */
  lemma PeerHeaderRoundTrip(peerAs: nat, localAs: nat, interfaceIndex: nat, afi: nat, as4: bool, rest: seq<Byte>)
    requires peerAs < (if as4 then 0x1_0000_0000 else 0x1_0000) && localAs < (if as4 then 0x1_0000_0000 else 0x1_0000)
    requires interfaceIndex < 0x1_0000 && afi < 0x1_0000
    ensures DecodePeerHeader(EncodePeerHeader(peerAs, localAs, interfaceIndex, afi, as4) + rest, as4) ==
            PeerHeader(peerAs, localAs, interfaceIndex, afi, 2 * AsWidth(as4) + 4)
  {
    var raw := EncodePeerHeader(peerAs, localAs, interfaceIndex, afi, as4) + rest;
    var w := AsWidth(as4);
    assert raw[..w] == EncodeNumber(peerAs, as4);
    assert raw[w..2 * w] == EncodeNumber(localAs, as4);
    if as4 {
      U32RoundTrip(raw, 0, peerAs);
      U32RoundTrip(raw, w, localAs);
    } else {
      U16RoundTrip(raw, 0, peerAs);
      U16RoundTrip(raw, w, localAs);
    }
    assert raw[2 * w..2 * w + 2] == Enc16(interfaceIndex);
    U16RoundTrip(raw, 2 * w, interfaceIndex);
    assert raw[2 * w + 2..2 * w + 4] == Enc16(afi);
    U16RoundTrip(raw, 2 * w + 2, afi);
  }

  /** Round trip of the two addresses of AFI 1 or 2 at `pos`. */
  lemma PeerAddressesRoundTrip(buf: seq<Byte>, pos: nat, afi: nat, peerIp: seq<Byte>, localIp: seq<Byte>)
    requires afi in {1, 2} && |peerIp| == |localIp| == AddressWidth(afi)
    requires pos + 2 * AddressWidth(afi) <= |buf| && buf[pos..pos + 2 * AddressWidth(afi)] == peerIp + localIp
    ensures DecodePeerAddresses(buf, pos, afi) ==
            PeerAddresses(AddressOf(afi, peerIp), AddressOf(afi, localIp), pos + 2 * AddressWidth(afi))
  {
    var n := AddressWidth(afi);
    assert buf[pos..pos + n] == (peerIp + localIp)[..n] == peerIp;
    assert buf[pos + n..pos + 2 * n] == (peerIp + localIp)[n..] == localIp;
  }

  /** The wire form of a state change body: the peer header, the peer and
      local addresses of its family, Old State and New State. */
  function EncodeStateChange(peerAs: nat, localAs: nat, interfaceIndex: nat, afi: nat,
                             peerIp: seq<Byte>, localIp: seq<Byte>, oldState: nat, newState: nat,
                             as4: bool): (s: seq<Byte>)
    requires peerAs < (if as4 then 0x1_0000_0000 else 0x1_0000) && localAs < (if as4 then 0x1_0000_0000 else 0x1_0000)
    requires interfaceIndex < 0x1_0000 && afi in {1, 2} && oldState < 0x1_0000 && newState < 0x1_0000
    requires |peerIp| == |localIp| == AddressWidth(afi)
    ensures |s| == 2 * AsWidth(as4) + 8 + 2 * AddressWidth(afi)
  {
    EncodePeerHeader(peerAs, localAs, interfaceIndex, afi, as4) + (peerIp + localIp) + (Enc16(oldState) + Enc16(newState))
  }

  /** Round trip: an encoded state change, whatever follows it, decodes to
      its one record with the peer address of its family, the peer AS and
      both states. */
  lemma StateChangeRoundTrip(peerAs: nat, localAs: nat, interfaceIndex: nat, afi: nat,
                             peerIp: seq<Byte>, localIp: seq<Byte>, oldState: nat, newState: nat,
                             as4: bool, rest: seq<Byte>, ts: nat)
    requires peerAs < (if as4 then 0x1_0000_0000 else 0x1_0000) && localAs < (if as4 then 0x1_0000_0000 else 0x1_0000)
    requires interfaceIndex < 0x1_0000 && afi in {1, 2} && oldState < 0x1_0000 && newState < 0x1_0000
    requires |peerIp| == |localIp| == AddressWidth(afi)
    ensures var raw := EncodeStateChange(peerAs, localAs, interfaceIndex, afi, peerIp, localIp,
                                         oldState, newState, as4) + rest;
            DecodeStateChange(raw, as4, ts) ==
              Outcome(true, [StateChange(ts, AddressOf(afi, peerIp), peerAs, oldState, newState)])
  {
    var header := EncodePeerHeader(peerAs, localAs, interfaceIndex, afi, as4);
    var addresses := peerIp + localIp;
    var states := Enc16(oldState) + Enc16(newState);
    var front := header + addresses;
    var raw := front + (states + rest);
    assert raw == EncodeStateChange(peerAs, localAs, interfaceIndex, afi, peerIp, localIp,
                                    oldState, newState, as4) + rest;
    var p := |header|;
    var q := |front|;
    assert raw == header + (addresses + (states + rest));
    PeerHeaderRoundTrip(peerAs, localAs, interfaceIndex, afi, as4, addresses + (states + rest));
    assert raw[p..q] == front[p..] == addresses;
    PeerAddressesRoundTrip(raw, p, afi, peerIp, localIp);
    assert raw[q..q + 4] == (states + rest)[..4] == states;
    StatesRoundTrip(raw, q, oldState, newState);
    StateChangeFromFields(raw, as4, ts, DecodePeerHeader(raw, as4), DecodePeerAddresses(raw, p, afi), oldState, newState);
  }

  /** A state change whose envelope, addresses and states are known. */
  lemma StateChangeFromFields(raw: seq<Byte>, as4: bool, ts: nat, h: PeerHeader, a: PeerAddresses, oldState: nat, newState: nat)
    requires h == DecodePeerHeader(raw, as4) && h.PeerHeader?
    requires a == DecodePeerAddresses(raw, h.next, h.afi) && a.PeerAddresses?
    requires U16(raw, a.next) == Some(oldState) && U16(raw, a.next + 2) == Some(newState)
    ensures DecodeStateChange(raw, as4, ts) == Outcome(true, [StateChange(ts, a.peerIp, h.peerAs, oldState, newState)])
  {
  }

  /** Round trip of Old State and New State at `q`. */
  lemma StatesRoundTrip(buf: seq<Byte>, q: nat, oldState: nat, newState: nat)
    requires oldState < 0x1_0000 && newState < 0x1_0000
    requires q + 4 <= |buf| && buf[q..q + 4] == Enc16(oldState) + Enc16(newState)
    ensures U16(buf, q) == Some(oldState) && U16(buf, q + 2) == Some(newState)
  {
    assert buf[q..q + 2] == buf[q..q + 4][..2] == Enc16(oldState);
    assert buf[q + 2..q + 4] == buf[q..q + 4][2..] == Enc16(newState);
    U16RoundTrip(buf, q, oldState);
    U16RoundTrip(buf, q + 2, newState);
  }

  // ---------------------------------------------------------------------
  // BGP4MP_MESSAGE and BGP4MP_MESSAGE_AS4

  /** The 16-octet marker, the Length and the Type of the BGP header at
      `pos`, and where the body starts.  The marker is skipped unread; a
      buffer too short for it fails. */
  datatype BgpHeader = BadBgpHeader | BgpHeader(length: nat, msgType: nat, body: nat)

  function DecodeBgpHeader(raw: seq<Byte>, pos: nat): (h: BgpHeader)
    ensures h.BgpHeader? <==> pos + 19 <= |raw|
    ensures h.BgpHeader? ==> h.body == pos + 19 && h.length < 0x1_0000 && h.msgType < 0x100
    ensures h.BgpHeader? ==> h.length == U16(raw, pos + 16).value && h.msgType == U8(raw, pos + 18).value
  {
    if pos + 16 > |raw| then BadBgpHeader
    else
      var length := U16(raw, pos + 16);
      var msgType := U8(raw, pos + 18);
      if length.None? || msgType.None? then BadBgpHeader
      else BgpHeader(length.value, msgType.value, pos + 19)
  }

  /** Round trip of the BGP header: whatever the 16 marker octets are,
      the Length and Type after them decode to themselves and the body
      starts right after the Type. */
  lemma BgpHeaderRoundTrip(before: seq<Byte>, marker: seq<Byte>, length: nat, msgType: nat, rest: seq<Byte>)
    requires |marker| == 16 && length < 0x1_0000 && msgType < 0x100
    ensures DecodeBgpHeader(before + marker + Enc16(length) + [msgType as Byte] + rest, |before|) ==
            BgpHeader(length, msgType, |before| + 19)
  {
    var raw := before + marker + Enc16(length) + [msgType as Byte] + rest;
    var p := |before| + 16;
    assert raw[p..p + 2] == Enc16(length);
    assert raw[p + 2] == msgType as Byte;
    U16RoundTrip(raw, p, length);
    U8RoundTrip(raw, p + 2, msgType);
  }

  /** The body of a BGP message by its type: 1 OPEN, 2 UPDATE, 3
      NOTIFICATION, 4 KEEPALIVE; any other type fails. */
  function DecodeBody(body: seq<Byte>, msgType: nat, ts: nat, info: Bgp4mpInfo): Outcome
  {
    if msgType == 1 then DecodeOpen(body, ts, info)
    else if msgType == 2 then DecodeUpdate(body, ts, info)
    else if msgType == 3 then DecodeNotification(body, ts)
    else if msgType == 4 then DecodeKeepalive(ts)
    else Outcome(false, [])
  }

  /** The peer header, both addresses, the BGP header and the body, which
      sees the AS width, the family, the peer and the BGP length. */
  function DecodeMessage(raw: seq<Byte>, as4: bool, ts: nat): Outcome
  {
    match DecodePeerHeader(raw, as4)
    case BadPeerHeader => Outcome(false, [])
    case PeerHeader(peerAs, _, _, afi, p) =>
      match DecodePeerAddresses(raw, p, afi)
      case BadAddresses => Outcome(false, [])
      case PeerAddresses(peerIp, _, q) =>
        match DecodeBgpHeader(raw, q)
        case BadBgpHeader => Outcome(false, [])
        case BgpHeader(length, msgType, b) =>
          DecodeBody(raw[b..], msgType, ts, Bgp4mpInfo(as4, afi == 1, peerAs, peerIp, length))
  }

  /** `parse_mrt_message_bgp4mp_message`. */
  method ParseMessage(raw: seq<Byte>, as4: bool, ts: nat) returns (r: Outcome)
    ensures r == DecodeMessage(raw, as4, ts)
  {
    var h := DecodePeerHeader(raw, as4);
    if h.BadPeerHeader? {
      return Outcome(false, []);
    }
    var a := DecodePeerAddresses(raw, h.next, h.afi);
    if a.BadAddresses? {
      return Outcome(false, []);
    }
    var b := DecodeBgpHeader(raw, a.next);
    if b.BadBgpHeader? {
      return Outcome(false, []);
    }
    var info := Bgp4mpInfo(as4, h.afi == 1, h.peerAs, a.peerIp, b.length);
    var body := raw[b.body..];
    if b.msgType == 2 {
      r := ParseUpdate(body, ts, info);
    } else {
      r := DecodeBody(body, b.msgType, ts, info);
    }
  }

  /** The AS width of a message is 4 octets exactly for BGP4MP_MESSAGE_AS4:
      the peer header is 12 octets rather than 8, and the addresses follow. */
  lemma MessageEnvelopeWidth(raw: seq<Byte>, as4: bool)
    requires DecodePeerHeader(raw, as4).PeerHeader?
    ensures DecodePeerHeader(raw, as4).next == (if as4 then 12 else 8)
    ensures DecodePeerHeader(raw, as4).afi == U16(raw, if as4 then 10 else 6).value
  {
  }

  /** Only the BGP message types 1 to 4 are decoded. */
  lemma UnsupportedMessageType(body: seq<Byte>, msgType: nat, ts: nat, info: Bgp4mpInfo)
    requires msgType !in {1, 2, 3, 4}
    ensures DecodeBody(body, msgType, ts, info) == Outcome(false, [])
  {
  }

  /** A KEEPALIVE yields its one record whatever follows its header. */
  lemma KeepaliveReadsNothing(body: seq<Byte>, ts: nat, info: Bgp4mpInfo)
    ensures DecodeBody(body, 4, ts, info) == Outcome(true, [Keepalive(ts)])
  {
  }

  // ---------------------------------------------------------------------
  // The BGP4MP and BGP4MP_ET record types

  /** Subtypes 0 and 5 are state changes (2-octet and 4-octet AS), 1 and 4
      messages (likewise); any other subtype fails. */
  function DecodeBgp4mp(raw: seq<Byte>, subtype: nat, ts: nat): Outcome
  {
    if subtype == 0 then DecodeStateChange(raw, false, ts)
    else if subtype == 1 then DecodeMessage(raw, false, ts)
    else if subtype == 4 then DecodeMessage(raw, true, ts)
    else if subtype == 5 then DecodeStateChange(raw, true, ts)
    else Outcome(false, [])
  }

  /** `parse_mrt_message_bgp4mp`. */
  method ParseBgp4mp(raw: seq<Byte>, subtype: nat, ts: nat) returns (r: Outcome)
    ensures r == DecodeBgp4mp(raw, subtype, ts)
  {
    if subtype == 0 {
      r := DecodeStateChange(raw, false, ts);
    } else if subtype == 1 {
      r := ParseMessage(raw, false, ts);
    } else if subtype == 4 {
      r := ParseMessage(raw, true, ts);
    } else if subtype == 5 {
      r := DecodeStateChange(raw, true, ts);
    } else {
      r := Outcome(false, []);
    }
  }

  /** BGP4MP_ET: a 4-octet Microsecond Timestamp, added to the record's
      timestamp, in front of a BGP4MP body. */
  function DecodeBgp4mpEt(raw: seq<Byte>, subtype: nat, ts: nat): Outcome
  {
    match U32(raw, 0)
    case None => Outcome(false, [])
    case Some(us) => DecodeBgp4mp(raw[4..], subtype, ts + us)
  }

  /** `parse_mrt_message_bgp4mp_et`: `header.timestamp += timestamp_et`. */
  method ParseBgp4mpEt(raw: seq<Byte>, subtype: nat, ts0: nat) returns (r: Outcome)
    ensures r == DecodeBgp4mpEt(raw, subtype, ts0)
  {
    var us := U32(raw, 0);
    if us.None? {
      return Outcome(false, []);
    }
    var ts := ts0 + us.value;
    r := ParseBgp4mp(raw[4..], subtype, ts);
  }

  /** BGP4MP_ET is BGP4MP on the octets after the microseconds, at the
      later time. */
  lemma EtIsBgp4mp(raw: seq<Byte>, subtype: nat, ts: nat)
    ensures |raw| < 4 ==> DecodeBgp4mpEt(raw, subtype, ts) == Outcome(false, [])
    ensures |raw| >= 4 ==> DecodeBgp4mpEt(raw, subtype, ts) == DecodeBgp4mp(raw[4..], subtype, ts + U32(raw, 0).value)
  {
  }

  /** Only the subtypes 0, 1, 4 and 5 are decoded. */
  lemma UnsupportedSubtype(raw: seq<Byte>, subtype: nat, ts: nat)
    requires subtype !in {0, 1, 4, 5}
    ensures DecodeBgp4mp(raw, subtype, ts) == Outcome(false, [])
    ensures DecodeBgp4mpEt(raw, subtype, ts) == Outcome(false, [])
  {
  }

  /** Every record carries the given timestamp. */
  predicate StampedWith(events: seq<Event>, ts: nat)
  {
    forall i | 0 <= i < |events| :: events[i].timestamp == ts
  }

  lemma FromPeerStamped(events: seq<Event>, ts: nat, info: Bgp4mpInfo)
    requires FromPeer(events, ts, info)
    ensures StampedWith(events, ts)
  {
  }

  /** Every record of a BGP4MP body carries the record's timestamp. */
  lemma Bgp4mpStamped(raw: seq<Byte>, subtype: nat, ts: nat)
    ensures StampedWith(DecodeBgp4mp(raw, subtype, ts).events, ts)
  {
    if subtype in {1, 4} {
      MessageStamped(raw, subtype == 4, ts);
    }
  }

  lemma MessageStamped(raw: seq<Byte>, as4: bool, ts: nat)
    ensures StampedWith(DecodeMessage(raw, as4, ts).events, ts)
  {
    var h := DecodePeerHeader(raw, as4);
    if h.PeerHeader? {
      var a := DecodePeerAddresses(raw, h.next, h.afi);
      if a.PeerAddresses? {
        var b := DecodeBgpHeader(raw, a.next);
        if b.BgpHeader? && b.msgType == 2 {
          var info := Bgp4mpInfo(as4, h.afi == 1, h.peerAs, a.peerIp, b.length);
          UpdateFromPeer(raw[b.body..], ts, info);
          FromPeerStamped(DecodeUpdate(raw[b.body..], ts, info).events, ts, info);
        }
      }
    }
  }

  /** With an extended timestamp every record carries the record's
      timestamp plus the microseconds that lead the body. */
  lemma Bgp4mpEtStamped(raw: seq<Byte>, subtype: nat, ts: nat)
    requires |raw| >= 4
    ensures StampedWith(DecodeBgp4mpEt(raw, subtype, ts).events, ts + U32(raw, 0).value)
  {
    var t := ts + U32(raw, 0).value;
    var body := DecodeBgp4mp(raw[4..], subtype, t);
    EtIsBgp4mp(raw, subtype, ts);
    assert DecodeBgp4mpEt(raw, subtype, ts) == body;
    Bgp4mpStamped(raw[4..], subtype, t);
    assert StampedWith(body.events, t);
  }

  /** Every record of an UPDATE in a BGP4MP_MESSAGE names the peer of the
      envelope. */
  lemma MessagePeer(raw: seq<Byte>, as4: bool, ts: nat)
    requires DecodePeerHeader(raw, as4).PeerHeader?
    requires DecodePeerAddresses(raw, DecodePeerHeader(raw, as4).next, DecodePeerHeader(raw, as4).afi).PeerAddresses?
    ensures var h := DecodePeerHeader(raw, as4);
            var a := DecodePeerAddresses(raw, h.next, h.afi);
            var b := DecodeBgpHeader(raw, a.next);
            b.BgpHeader? && b.msgType == 2 ==>
              FromPeer(DecodeMessage(raw, as4, ts).events, ts,
                       Bgp4mpInfo(as4, h.afi == 1, h.peerAs, a.peerIp, b.length))
  {
    var h := DecodePeerHeader(raw, as4);
    var a := DecodePeerAddresses(raw, h.next, h.afi);
    var b := DecodeBgpHeader(raw, a.next);
    if b.BgpHeader? && b.msgType == 2 {
      UpdateFromPeer(raw[b.body..], ts, Bgp4mpInfo(as4, h.afi == 1, h.peerAs, a.peerIp, b.length));
    }
  }
}
