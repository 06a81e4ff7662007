/** The events the MRT decoder emits, and the values threaded through the
    decoding of one BGP4MP record.

    Timestamps are integers in microseconds.  A `count` field that the
    source declares without an initialiser and that no attribute set is
    `None` here: the source leaves such a field indeterminate. */
module MrtEvents {
  import opened Bytes
  import opened Addresses
  import opened Subnets

  /** The path attributes of one UPDATE as accumulated by the attribute
      loop, in the field order of an announcement record. */
  datatype PathAttributes = PathAttributes(
    asPath: seq<nat>,
    origin: string,
    nextHop: Address,
    localPref: Option<nat>,
    med: Option<nat>,
    communities: seq<nat>,
    atomicAggregate: bool,
    aggregatorAs: Option<nat>,
    aggregatorIp: Address)

  /** The attribute variables at the start of an UPDATE: empty containers,
      default addresses, a false flag and unset counts. */
  function NoAttributes(): PathAttributes
  {
    PathAttributes([], "", Unspecified(), None, None, [], false, None, Unspecified())
  }

  /** The attribute variables after they were moved into a record: the
      moved-from `as_path`, `origin` and `communities` are empty, the
      trivially copyable fields keep their values. */
  function MovedFrom(a: PathAttributes): (m: PathAttributes)
    ensures m.asPath == [] && m.origin == [] && m.communities == []
    ensures m.(asPath := a.asPath, origin := a.origin, communities := a.communities) == a
  {
    a.(asPath := [], origin := "", communities := [])
  }

  /** What every BGP4MP message body knows about its envelope
      (`bgp4mp_info`): the AS width, the address family of the peer, the
      peer, and the BGP message length from the BGP header. */
  datatype Bgp4mpInfo = Bgp4mpInfo(as4: bool, afiIpv4: bool, peerAs: nat, peerIp: Address, length: nat)

  datatype Event =
    | Announcement(timestamp: nat, peerIp: Address, peerAs: nat, prefix: SubnetValue, attributes: PathAttributes)
    | Withdrawal(timestamp: nat, peerIp: Address, peerAs: nat, prefix: SubnetValue)
    | StateChange(timestamp: nat, peerIp: Address, peerAs: nat, oldState: nat, newState: nat)
    | Open(timestamp: nat, version: nat, myAutonomousSystem: nat, holdTime: nat, bgpIdentifier: nat)
    | Notification(timestamp: nat, errorCode: nat, errorSubcode: nat)
    | Keepalive(timestamp: nat)

  /** The result of a `parse_*` member that appends to the event queue:
      whether it returned true, and the events it appended before
      returning (also when it returned false). */
  datatype Outcome = Outcome(ok: bool, events: seq<Event>)

  /** Every event is a route event from the given peer with the given time. */
  predicate FromPeer(events: seq<Event>, ts: nat, info: Bgp4mpInfo)
  {
    forall i | 0 <= i < |events| ::
      (events[i].Announcement? || events[i].Withdrawal?) &&
      events[i].timestamp == ts && events[i].peerIp == info.peerIp && events[i].peerAs == info.peerAs
  }

  /** One withdrawal per prefix, in order. */
  function Withdrawals(ts: nat, info: Bgp4mpInfo, prefixes: seq<SubnetValue>): (w: seq<Event>)
    ensures |w| == |prefixes| && FromPeer(w, ts, info)
    ensures forall i | 0 <= i < |w| :: w[i].Withdrawal? && w[i].prefix == prefixes[i]
  {
    seq(|prefixes|, i requires 0 <= i < |prefixes| => Withdrawal(ts, info.peerIp, info.peerAs, prefixes[i]))
  }

  /** One announcement per prefix, in order, each carrying the next hop
      `nextHop`.  The first announcement carries the accumulated
      attributes; it moves the AS path, origin and communities out, so
      every later announcement carries them empty. */
  function Announcements(ts: nat, info: Bgp4mpInfo, prefixes: seq<SubnetValue>, attrs: PathAttributes, nextHop: Address): (a: seq<Event>)
    ensures |a| == |prefixes| && FromPeer(a, ts, info)
    ensures forall i | 0 <= i < |a| :: a[i].Announcement? && a[i].prefix == prefixes[i]
    ensures forall i | 0 <= i < |a| ::
              a[i].attributes == (if i == 0 then attrs else MovedFrom(attrs)).(nextHop := nextHop)
  {
    seq(|prefixes|, i requires 0 <= i < |prefixes| =>
      Announcement(ts, info.peerIp, info.peerAs, prefixes[i],
        (if i == 0 then attrs else MovedFrom(attrs)).(nextHop := nextHop)))
  }

  /** The attribute variables after `Announcements` moved from them. */
  function AfterAnnouncements(prefixes: seq<SubnetValue>, attrs: PathAttributes): (a: PathAttributes)
    ensures prefixes == [] ==> a == attrs
    ensures prefixes != [] ==> a == MovedFrom(attrs)
  {
    if prefixes == [] then attrs else MovedFrom(attrs)
  }

  /** Announcing two runs of prefixes one after the other, the second from
      the variables the first left, is announcing both runs at once: only
      the very first announcement carries the moved containers. */
  lemma AnnouncementsConcat(ts: nat, info: Bgp4mpInfo, p: seq<SubnetValue>, q: seq<SubnetValue>,
                            attrs: PathAttributes, nextHop: Address)
    ensures Announcements(ts, info, p + q, attrs, nextHop) ==
            Announcements(ts, info, p, attrs, nextHop) + Announcements(ts, info, q, AfterAnnouncements(p, attrs), nextHop)
    ensures AfterAnnouncements(p + q, attrs) == AfterAnnouncements(q, AfterAnnouncements(p, attrs))
  {
    var a := Announcements(ts, info, p + q, attrs, nextHop);
    var b := Announcements(ts, info, p, attrs, nextHop) + Announcements(ts, info, q, AfterAnnouncements(p, attrs), nextHop);
    forall i | 0 <= i < |a|
      ensures a[i] == b[i]
    {
      if i < |p| {
        assert (p + q)[i] == p[i];
      } else {
        assert (p + q)[i] == q[i - |p|];
      }
    }
  }

  /** The loop that turns withdrawn prefixes into records. */
  method EmitWithdrawals(ts: nat, info: Bgp4mpInfo, prefixes: seq<SubnetValue>) returns (events: seq<Event>)
    ensures events == Withdrawals(ts, info, prefixes)
  {
    events := [];
    for i := 0 to |prefixes|
      invariant events == Withdrawals(ts, info, prefixes[..i])
    {
      assert prefixes[..i + 1][..i] == prefixes[..i];
      events := events + [Withdrawal(ts, info.peerIp, info.peerAs, prefixes[i])];
    }
    assert prefixes[..|prefixes|] == prefixes;
  }

  /** The loop that turns announced prefixes into records, moving the
      containers out of the attribute variables on the way. */
  method EmitAnnouncements(ts: nat, info: Bgp4mpInfo, prefixes: seq<SubnetValue>, attrs0: PathAttributes, nextHop: Address)
      returns (events: seq<Event>, attrs: PathAttributes)
    ensures events == Announcements(ts, info, prefixes, attrs0, nextHop)
    ensures attrs == AfterAnnouncements(prefixes, attrs0)
  {
    events := [];
    attrs := attrs0;
    for i := 0 to |prefixes|
      invariant events == Announcements(ts, info, prefixes[..i], attrs0, nextHop)
      invariant attrs == AfterAnnouncements(prefixes[..i], attrs0)
    {
      assert prefixes[..i + 1][..i] == prefixes[..i];
      events := events + [Announcement(ts, info.peerIp, info.peerAs, prefixes[i], attrs.(nextHop := nextHop))];
      attrs := MovedFrom(attrs);
    }
    assert prefixes[..|prefixes|] == prefixes;
  }

  lemma FromPeerAppend(a: seq<Event>, b: seq<Event>, ts: nat, info: Bgp4mpInfo)
    requires FromPeer(a, ts, info) && FromPeer(b, ts, info)
    ensures FromPeer(a + b, ts, info)
  {
    forall i | 0 <= i < |a + b|
      ensures var e := (a + b)[i];
        (e.Announcement? || e.Withdrawal?) && e.timestamp == ts && e.peerIp == info.peerIp && e.peerAs == info.peerAs
    {
      if i >= |a| {
        assert (a + b)[i] == b[i - |a|];
      }
    }
  }
}
