/** CIDR prefix lists (`parse_bgp4mp_prefix`): a sequence of
    (length octet, ceil(length / 8) prefix octets) pairs, read while an
    unsigned 64-bit byte budget is positive.  Each pair is left-aligned into
    a zeroed 16-octet buffer and becomes a `subnet` of the given family.

    The decoding is stated in two layers: `DecodePrefixes` frames the wire
    pairs, and `Denoted` turns framed pairs into subnets. */
module Prefixes {
  import opened Bytes
  import opened Addresses
  import opened Subnets

  /** A prefix on the wire: its length octet and its prefix octets. */
  datatype WirePrefix = WirePrefix(length: Byte, octets: seq<Byte>)

  /** One framed prefix and the position just after it. */
  datatype PrefixStep = BadPrefix | GoodPrefix(wire: WirePrefix, next: nat)

  /** A framed prefix list and the position just after it. */
  datatype PrefixList = PrefixListFailed | PrefixListRead(wires: seq<WirePrefix>, next: nat)

  /** The number of prefix octets that follow a length octet: ceil(length / 8). */
  function PrefixByteCount(length: nat): (n: nat)
    ensures length <= 8 * n < length + 8
  {
    if length == 0 then 0 else 1 + PrefixByteCount(if length <= 8 then 0 else length - 8)
  }

  /** The source's own count: `length / 8`, plus one for a partial octet. */
  lemma {:induction false} PrefixByteCountDivision(length: nat)
    ensures PrefixByteCount(length) == if length % 8 != 0 then length / 8 + 1 else length / 8
  {
  }

  /** A pair the decoder accepts: as many prefix octets as the length asks
      for, and at most the 16 that fit the buffer `ip`. */
  predicate WellFormed(w: WirePrefix)
  {
    |w.octets| == PrefixByteCount(w.length as nat) <= 16
  }

  predicate AllWellFormed(ws: seq<WirePrefix>)
  {
    ws == [] || (WellFormed(ws[0]) && AllWellFormed(ws[1..]))
  }

  /** The octets that an encoding of `ws` occupies. */
  function WireSize(ws: seq<WirePrefix>): nat
  {
    if ws == [] then 0 else 1 + |ws[0].octets| + WireSize(ws[1..])
  }

  // ---------------------------------------------------------------------
  // Framing

  /** One pair at `pos`.  A length above 128 asks for more than the 16
      octets of `ip` and fails (see the finding on `AsWrittenOverrunsIp`). */
  function DecodePrefix(buf: seq<Byte>, pos: nat): (r: PrefixStep)
    ensures r.GoodPrefix? ==>
              WellFormed(r.wire) && r.next == pos + 1 + |r.wire.octets| <= |buf| &&
              buf[pos] == r.wire.length && buf[pos + 1..r.next] == r.wire.octets
  {
    if pos + 1 > |buf| then BadPrefix
    else
      var n := PrefixByteCount(buf[pos] as nat);
      if n > 16 || pos + 1 + n > |buf| then BadPrefix
      else GoodPrefix(WirePrefix(buf[pos], buf[pos + 1..pos + 1 + n]), pos + 1 + n)
  }

  /** Pairs from `pos` while the budget is positive; the budget drops by
      the octets each pair took, wrapping around below zero. */
  function DecodePrefixes(buf: seq<Byte>, pos: nat, budget: nat): (r: PrefixList)
    requires budget < CountModulus
    decreases |buf| - pos
  {
    if budget == 0 then PrefixListRead([], pos)
    else match DecodePrefix(buf, pos)
      case BadPrefix => PrefixListFailed
      case GoodPrefix(w, next) =>
        Prepend([w], DecodePrefixes(buf, next, CountSub(budget, next - pos)))
  }

  /** `ws` in front of the pairs of a successful decoding. */
  function Prepend(ws: seq<WirePrefix>, r: PrefixList): (p: PrefixList)
    ensures ws == [] ==> p == r
  {
    match r
    case PrefixListFailed => PrefixListFailed
    case PrefixListRead(vs, next) =>
      assert ws == [] ==> ws + vs == vs;
      PrefixListRead(ws + vs, next)
  }

  // ---------------------------------------------------------------------
  // Denotation

  /** The buffer `ip` after the prefix octets were stored at its front. */
  function LeftAligned(octets: seq<Byte>): (ip: Octets16)
    requires |octets| <= 16
    ensures ip[..|octets|] == octets
    ensures forall i | |octets| <= i < 16 :: ip[i] == 0
  {
    octets + Zeros(16 - |octets|)
  }

  /** `address{ip.data(), ipv4 or ipv6, network}`: a v4 address takes the
      first four octets of the buffer. */
  function PrefixAddress(ip: Octets16, afiIpv4: bool): (a: Address)
    ensures afiIpv4 ==> IsV4(a) && a.bytes[12..] == ip[..4]
    ensures !afiIpv4 ==> a.bytes == ip
  {
    if afiIpv4 then FromV4(ip[..4]) else FromV6(ip)
  }

  /** The subnet that one pair denotes. */
  function PrefixSubnet(w: WirePrefix, afiIpv4: bool): SubnetValue
    requires |w.octets| <= 16
  {
    MakeSubnet(PrefixAddress(LeftAligned(w.octets), afiIpv4), w.length as nat)
  }

  /** The subnets that the pairs denote, in order. */
  function Denoted(ws: seq<WirePrefix>, afiIpv4: bool): (s: seq<SubnetValue>)
    requires AllWellFormed(ws)
    ensures |s| == |ws|
  {
    if ws == [] then [] else [PrefixSubnet(ws[0], afiIpv4)] + Denoted(ws[1..], afiIpv4)
  }

  // ---------------------------------------------------------------------
  // The source's loops

  /** One iteration of the loop of `parse_bgp4mp_prefix`: the length octet,
      then its prefix octets copied one by one into the zeroed 16-octet
      buffer `ip`, then the subnet built from `ip`. */
  method ReadPrefix(raw: seq<Byte>, pos0: nat, afiIpv4: bool) returns (ok: bool, prefix: SubnetValue, pos: nat)
    ensures var d := DecodePrefix(raw, pos0);
            ok == d.GoodPrefix? && (ok ==> prefix == PrefixSubnet(d.wire, afiIpv4) && pos == d.next)
  {
    prefix := DefaultSubnet();
    pos := pos0;
    if pos + 1 > |raw| {
      return false, prefix, pos;
    }
    var prefixLength := raw[pos] as nat;
    pos := pos + 1;
    var prefixBytes := PrefixOctets(prefixLength);
    if prefixBytes > 16 {
      return false, prefix, pos;
    }
    var good, ip;
    good, ip, pos := CopyOctets(raw, pos, prefixBytes);
    if !good {
      return false, prefix, pos;
    }
    ghost var w := WirePrefix(raw[pos0], raw[pos0 + 1..pos]);
    assert DecodePrefix(raw, pos0) == GoodPrefix(w, pos);
    assert ip[..] == LeftAligned(w.octets) && prefixLength == w.length as nat;
    prefix := MakeSubnet(PrefixAddress(ip[..], afiIpv4), prefixLength);
    assert prefix == PrefixSubnet(w, afiIpv4);
    ok := true;
  }

  /** The source's count of prefix octets: `length / 8`, plus one for a
      partial octet. */
  method PrefixOctets(length: nat) returns (n: nat)
    ensures n == PrefixByteCount(length)
  {
    n := length / 8;
    if length % 8 != 0 {
      n := n + 1;
    }
    PrefixByteCountDivision(length);
  }

  /** The copy loop of `parse_bgp4mp_prefix`: `n` octets from `pos0`, one
      by one, to the front of a zeroed 16-octet buffer. */
  method CopyOctets(raw: seq<Byte>, pos0: nat, n: nat) returns (ok: bool, ip: array<Byte>, pos: nat)
    requires pos0 <= |raw| && n <= 16
    ensures fresh(ip) && ip.Length == 16
    ensures ok == (pos0 + n <= |raw|)
    ensures ok ==> pos == pos0 + n && ip[..] == LeftAligned(raw[pos0..pos0 + n])
  {
    pos := pos0;
    ip := new Byte[16](_ => 0);
    for i := 0 to n
      invariant pos == pos0 + i
      invariant pos <= |raw|
      invariant ip[..i] == raw[pos0..pos]
      invariant forall j | i <= j < 16 :: ip[j] == 0
    {
      if pos + 1 > |raw| {
        return false, ip, pos;
      }
      ip[i] := raw[pos];
      pos := pos + 1;
    }
    assert ip[..] == LeftAligned(raw[pos0..pos]) by {
      forall j | 0 <= j < 16
        ensures ip[..][j] == LeftAligned(raw[pos0..pos])[j]
      {
        if j < n {
          assert ip[..n][j] == ip[j];
        }
      }
    }
    ok := true;
  }

  /** The loop of `parse_bgp4mp_prefix`, over a cursor into `raw`: on
      success the subnets are those the framed pairs denote. */
  method ParsePrefixes(raw: seq<Byte>, pos0: nat, afiIpv4: bool, length0: nat)
      returns (ok: bool, prefix: seq<SubnetValue>, pos: nat)
    requires length0 < CountModulus
    ensures var r := DecodePrefixes(raw, pos0, length0);
            ok == r.PrefixListRead? &&
            (ok ==> AllWellFormed(r.wires) && prefix == Denoted(r.wires, afiIpv4) && pos == r.next)
  {
    var length: nat := length0;
    pos := pos0;
    prefix := [];
    ghost var wires: seq<WirePrefix> := [];
    while length > 0
      invariant length < CountModulus
      invariant AllWellFormed(wires) && prefix == Denoted(wires, afiIpv4)
      invariant DecodePrefixes(raw, pos0, length0) == Prepend(wires, DecodePrefixes(raw, pos, length))
      decreases |raw| - pos
    {
      var start := pos;
      var good, p;
      good, p, pos := ReadPrefix(raw, pos, afiIpv4);
      DecodePrefixesStep(raw, start, length);
      if !good {
        return false, prefix, pos;
      }
      var w := DecodePrefix(raw, start).wire;
      PrependAppend(wires, w, DecodePrefixes(raw, pos, CountSub(length, pos - start)));
      DenotedAppend(wires, w, afiIpv4);
      wires := wires + [w];
      prefix := prefix + [p];
      length := CountSub(length, pos - start);
    }
    assert DecodePrefixes(raw, pos0, length0) == PrefixListRead(wires + [], pos);
    assert wires + [] == wires;
    ok := true;
  }

  /** Unfolding `DecodePrefixes` by one pair. */
  lemma DecodePrefixesStep(buf: seq<Byte>, pos: nat, budget: nat)
    requires 0 < budget < CountModulus
    ensures var d := DecodePrefix(buf, pos);
            d.BadPrefix? ==> DecodePrefixes(buf, pos, budget) == PrefixListFailed
    ensures var d := DecodePrefix(buf, pos);
            d.GoodPrefix? ==>
              DecodePrefixes(buf, pos, budget)
              == Prepend([d.wire], DecodePrefixes(buf, d.next, CountSub(budget, d.next - pos)))
  {
  }

  lemma PrependAppend(ws: seq<WirePrefix>, w: WirePrefix, r: PrefixList)
    ensures Prepend(ws, Prepend([w], r)) == Prepend(ws + [w], r)
  {
    if r.PrefixListRead? {
      assert ws + ([w] + r.wires) == (ws + [w]) + r.wires;
    }
  }

  lemma {:induction false} DenotedAppend(ws: seq<WirePrefix>, w: WirePrefix, afiIpv4: bool)
    requires AllWellFormed(ws) && WellFormed(w)
    ensures AllWellFormed(ws + [w])
    ensures Denoted(ws + [w], afiIpv4) == Denoted(ws, afiIpv4) + [PrefixSubnet(w, afiIpv4)]
    decreases |ws|
  {
    if ws == [] {
      assert [w][1..] == [];
    } else {
      assert (ws + [w])[1..] == ws[1..] + [w];
      DenotedAppend(ws[1..], w, afiIpv4);
    }
  }

  // ---------------------------------------------------------------------
  // Properties of framing

  /** A zero budget yields no prefixes and consumes nothing. */
  lemma DecodePrefixesZero(buf: seq<Byte>, pos: nat)
    ensures DecodePrefixes(buf, pos, 0) == PrefixListRead([], pos)
  {
  }

  /** Whatever is decoded is well formed and lies within the buffer. */
  lemma {:induction false} DecodePrefixesWellFormed(buf: seq<Byte>, pos: nat, budget: nat)
    requires budget < CountModulus
    requires DecodePrefixes(buf, pos, budget).PrefixListRead?
    ensures AllWellFormed(DecodePrefixes(buf, pos, budget).wires)
    ensures budget > 0 ==> pos < DecodePrefixes(buf, pos, budget).next <= |buf|
    decreases |buf| - pos
  {
    if budget > 0 {
      var d := DecodePrefix(buf, pos);
      var next := CountSub(budget, d.next - pos);
      DecodePrefixesWellFormed(buf, d.next, next);
      if next == 0 {
        assert DecodePrefixes(buf, d.next, next) == PrefixListRead([], d.next);
      }
    }
  }

  /** On a buffer shorter than 2^64 octets a successful decoding consumes
      exactly the budget: a budget that a prefix overshoots wraps around to
      more octets than the buffer holds, and the decoding then fails. */
  lemma {:induction false} DecodePrefixesExact(buf: seq<Byte>, pos: nat, budget: nat)
    requires budget < CountModulus && |buf| < CountModulus
    requires DecodePrefixes(buf, pos, budget).PrefixListRead?
    ensures DecodePrefixes(buf, pos, budget).next == pos + budget
    ensures WireSize(DecodePrefixes(buf, pos, budget).wires) == budget
    decreases |buf| - pos
  {
    if budget > 0 {
      var d := DecodePrefix(buf, pos);
      var rest := DecodePrefixes(buf, d.next, CountSub(budget, d.next - pos));
      DecodePrefixesExact(buf, d.next, CountSub(budget, d.next - pos));
      DecodePrefixesWellFormed(buf, d.next, CountSub(budget, d.next - pos));
      assert DecodePrefixes(buf, pos, budget).wires == [d.wire] + rest.wires;
      assert ([d.wire] + rest.wires)[1..] == rest.wires;
    }
  }

  /** `buf` holds the encoding of `ws` from `pos` on: each length octet
      followed by its prefix octets. */
  predicate EncodedAt(buf: seq<Byte>, pos: nat, ws: seq<WirePrefix>)
    decreases |ws|
  {
    ws == [] ||
    (pos + 1 + |ws[0].octets| <= |buf| &&
     buf[pos] == ws[0].length && buf[pos + 1..pos + 1 + |ws[0].octets|] == ws[0].octets &&
     EncodedAt(buf, pos + 1 + |ws[0].octets|, ws[1..]))
  }

  /** A well-formed encoded pair in front of a successfully decoded list is
      decoded first, and the budget left for the list is its size. */
  lemma DecodeConsPrefix(buf: seq<Byte>, pos: nat, w: WirePrefix, budget: nat, restSize: nat,
                         tail: seq<WirePrefix>)
    requires WellFormed(w) && budget == 1 + |w.octets| + restSize < CountModulus
    requires pos + 1 + |w.octets| <= |buf|
    requires buf[pos] == w.length && buf[pos + 1..pos + 1 + |w.octets|] == w.octets
    requires DecodePrefixes(buf, pos + 1 + |w.octets|, restSize) == PrefixListRead(tail, pos + budget)
    ensures DecodePrefixes(buf, pos, budget) == PrefixListRead([w] + tail, pos + budget)
  {
    var d := DecodePrefix(buf, pos);
    assert d == GoodPrefix(w, pos + 1 + |w.octets|);
    assert CountSub(budget, d.next - pos) == restSize;
  }

  /** Round trip: decoding well-formed encoded pairs with a budget of their
      encoded size yields them in wire order and stops right after them. */
  lemma {:induction false} DecodeEncodedPrefixes(buf: seq<Byte>, pos: nat, ws: seq<WirePrefix>)
    requires EncodedAt(buf, pos, ws) && AllWellFormed(ws) && WireSize(ws) < CountModulus
    ensures DecodePrefixes(buf, pos, WireSize(ws)) == PrefixListRead(ws, pos + WireSize(ws))
    decreases |ws|
  {
    if ws != [] {
      var w := ws[0];
      var next := pos + 1 + |w.octets|;
      DecodeEncodedPrefixes(buf, next, ws[1..]);
      assert next + WireSize(ws[1..]) == pos + WireSize(ws);
      DecodeConsPrefix(buf, pos, w, WireSize(ws), WireSize(ws[1..]), ws[1..]);
      assert [w] + ws[1..] == ws;
    }
  }

  // ---------------------------------------------------------------------
  // Properties of denotation

  /** Every decoded subnet is masked: no network bit is set after the
      stored length. */
  lemma {:induction false} DenotedMasked(ws: seq<WirePrefix>, afiIpv4: bool)
    requires AllWellFormed(ws)
    ensures forall i | 0 <= i < |ws| :: Masked(Denoted(ws, afiIpv4)[i])
    decreases |ws|
  {
    if ws != [] {
      DenotedMasked(ws[1..], afiIpv4);
      MakeSubnetMasked(PrefixAddress(LeftAligned(ws[0].octets), afiIpv4), ws[0].length as nat);
      var s := Denoted(ws, afiIpv4);
      forall i | 0 <= i < |ws|
        ensures Masked(s[i])
      {
        if i > 0 {
          assert s[i] == Denoted(ws[1..], afiIpv4)[i - 1];
        }
      }
    }
  }

  /** A v4 pair within range keeps its length; a longer one denotes the
      default subnet. */
  lemma V4PrefixLength(w: WirePrefix)
    requires |w.octets| <= 16
    ensures w.length as nat <= 32 ==> Length(PrefixSubnet(w, true)) == w.length as nat
    ensures w.length as nat <= 32 ==> PrefixSubnet(w, true).len == w.length as nat + 96
    ensures w.length as nat > 32 ==> PrefixSubnet(w, true) == DefaultSubnet()
  {
    var a := PrefixAddress(LeftAligned(w.octets), true);
    if w.length as nat <= 32 {
      MakeSubnetLength(a, w.length as nat);
    } else {
      MakeSubnetResets(a, w.length as nat);
    }
  }

  // ---------------------------------------------------------------------
  // The length octet is not range-checked

  /** As written, the copy loop stores prefix octet i into `ip[i]` for each
      i below ceil(length / 8) while octets remain, whatever the length:
      these are the indices of `ip` it writes, in order. */
  function AsWrittenStores(raw: seq<Byte>, pos: nat, length: Byte): (stores: seq<nat>)
    ensures |stores| <= PrefixByteCount(length as nat)
    ensures pos + PrefixByteCount(length as nat) <= |raw| ==> |stores| == PrefixByteCount(length as nat)
    ensures forall i | 0 <= i < |stores| :: stores[i] == i
  {
    var n := PrefixByteCount(length as nat);
    var left := if pos <= |raw| then |raw| - pos else 0;
    seq(if n <= left then n else left, i => i)
  }

  /** The copy loop as written, without a bound on the number of octets:
      each turn reads one octet and records the index of `ip` it would be
      stored at. */
  method AsWrittenCopy(raw: seq<Byte>, pos0: nat, length: Byte) returns (ok: bool, stores: seq<nat>)
    requires pos0 <= |raw|
    ensures stores == AsWrittenStores(raw, pos0, length)
    ensures ok == (pos0 + PrefixByteCount(length as nat) <= |raw|)
  {
    var prefixBytes := PrefixOctets(length as nat);
    var pos := pos0;
    stores := [];
    for i := 0 to prefixBytes
      invariant pos == pos0 + i <= |raw|
      invariant stores == seq(i, j => j)
    {
      if pos + 1 > |raw| {
        return false, stores;
      }
      stores := stores + [i];
      pos := pos + 1;
    }
    ok := true;
  }

  /** A length octet of 129 or more, with enough octets after it, makes the
      copy loop store at index 16 of the 16-octet `ip`, past its end; a
      length of 200 makes it store 25 octets. */
  lemma AsWrittenOverrunsIp(raw: seq<Byte>, pos: nat, length: Byte)
    requires length as nat > 128 && pos + 17 <= |raw|
    ensures |AsWrittenStores(raw, pos, length)| > 16 && AsWrittenStores(raw, pos, length)[16] == 16
    ensures length == 200 && pos + 25 <= |raw| ==> |AsWrittenStores(raw, pos, length)| == 25
  {
    PrefixByteCountDivision(length as nat);
  }

  /** The corrected decoder rejects such a length instead of storing out of
      bounds, and every pair it accepts fits `ip`. */
  lemma DecodePrefixRejectsOverlong(buf: seq<Byte>, pos: nat)
    ensures DecodePrefix(buf, pos).GoodPrefix? ==> DecodePrefix(buf, pos).wire.length as nat <= 128
    ensures pos < |buf| && buf[pos] as nat > 128 ==> DecodePrefix(buf, pos).BadPrefix?
  {
  }
}
