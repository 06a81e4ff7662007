# MRT reader of VAST, modelled in Dafny

This project models the MRT import format of VAST (`libvast/src/format/mrt.cpp`) and the `subnet` value type (`libvast/src/subnet.cpp`).

The reader takes a stream of MRT records (RFC 6396) and hands out one event per call. Each record has a 12-octet common header: Timestamp, Type, Subtype, Length. The body that follows depends on the Type:
- TABLE_DUMP_V2 (13) is accepted and skipped.
- BGP4MP (16) and BGP4MP_ET (17) are decoded.
- Every other Type fails.

A BGP4MP body is either of two kinds:
- A state change, which leads with the peer envelope (AS numbers of 2 or 4 octets, then IPv4 or IPv6 addresses).
- A BGP message (RFC 4271), which has the same envelope, then the 19-octet BGP header and an OPEN, UPDATE, NOTIFICATION or KEEPALIVE body.

An UPDATE has three parts, which the parser visits in this order:
1. The withdrawn routes. Each becomes a withdrawal event.
2. The path attributes. This covers ORIGIN, AS_PATH, NEXT_HOP, MED, LOCAL_PREF, ATOMIC_AGGREGATE, AGGREGATOR, COMMUNITIES (RFC 1997), MP_REACH_NLRI and MP_UNREACH_NLRI (RFC 4760), and extended communities (RFC 4360). AS4_PATH and AS4_AGGREGATOR (RFC 6793) are recognised and skipped.
3. The NLRI. Each prefix becomes an announcement event carrying the accumulated attributes.

Every prefix passes through the `subnet` constructor. The constructor does three things:
- it checks the length against the address family;
- it adds the offset of 96 when the address is IPv4;
- it masks the network.

## How the model is built

The model follows the structure of the source, file by file:

| file | module | what it holds |
|---|---|---|
| `bytes.dfy` | `Bytes` | octets and big-endian field readers; the 64-bit `count` subtraction |
| `address.dfy` | `Addresses` | the 16-octet address, its bits, `mask`, `compare` and `<` |
| `subnet.dfy` | `Subnets` | the `subnet` value and the `Subnet` class whose constructor initialises in place |
| `events.dfy` | `MrtEvents` | the emitted events, the attribute variables and the per-prefix emission loops |
| `prefixes.dfy` | `Prefixes` | `parse_bgp4mp_prefix` |
| `attributes.dfy` | `Attributes` | the path-attribute loop and every attribute value |
| `bgp.dfy` | `BgpMessages` | OPEN, UPDATE, NOTIFICATION and KEEPALIVE |
| `bgp4mp.dfy` | `Bgp4mp` | the BGP4MP envelope, the subtypes and BGP4MP_ET |
| `mrt.dfy` | `Mrt` | the common header, the input stream and `mrt_parser::parse` |
| `reader.dfy` | `Reader` | `reader::read` over the event queue |

Each `parse_*` routine of the source that loops or changes state is modelled twice:
- As a **method**, written the way the source works. It keeps a cursor into the octets and runs loops over unsigned budgets. It appends events as it goes, and it changes the stream position and the event queue in place.
- As a **specification function** that decodes the same octets.

These are the prefix loop, the attribute loop, the UPDATE parser, the BGP4MP message parser, the subtype and record-type dispatchers, `mrt_parser::parse` and `reader::read`. The routines that only read a fixed run of fields are modelled by their specification function alone, which the methods call: `parse_mrt_header`, `parse_mrt_message_bgp4mp_state_change`, and the OPEN, NOTIFICATION and KEEPALIVE parsers.

Each method's contract ties its result to its function. The lemmas state properties of the functions:
- round trips of encoded headers, fields, prefix lists, attributes, state changes and records;
- exact framing of the attribute and prefix loops;
- the dispatch rules;
- time stamping and peer fields of every event;
- the reader's order of delivery and its progress.

### Behaviour of the code that the model keeps

- **Partial events are kept.** A `parse_*` routine that fails part-way leaves the events it already pushed in the reader's queue. An example is an UPDATE whose withdrawals decode but whose attributes do not. The reader hands those events out after it reports the parse error. The model's `Outcome` carries those events, also on failure. A record is therefore not decoded all-or-nothing.
- **Short header.** With fewer than 12 octets left in the stream, `parse` succeeds with no events. The read sets end-of-file, and `parse` returns true when end-of-file is set. This holds even when some header octets were present, so a stream truncated inside an RFC 6396 common header ends quietly.
- **Unsigned budgets.** The prefix and attribute budgets are 64-bit `count` values that wrap on overshoot. Lengths that do not add up (RFC 4271 section 6.3 calls such an UPDATE malformed) are not rejected up front. The model carries the wrap-around explicitly (`CountSub`, `NlriLength`). A wrapped budget always ends in a failed read, in the source and in the model.
- **Moved-from containers.** `std::move` of `as_path`, `origin` and `communities` inside the per-prefix loops empties them. So within one announcement loop, only the first announcement carries them and the later ones carry them empty. An AS_PATH, ORIGIN or COMMUNITIES attribute that follows an MP_REACH_NLRI in the same UPDATE fills the emptied variables again, and the NLRI announcements then carry what it filled in. The model assumes that the moved-from state is empty (`MovedFrom`).

### Other modelling choices

- **Extended communities.** Each 8-octet community is read as a 16-bit type and a 48-bit value. `count48` shifts one extra octet, so the value is the 48-bit field times 256. The cursor advances by only 4 octets per community. `ExtendedCommunities` models both effects.
- **Unchecked slices** become failures:
  - the attribute value slice of the attribute length;
  - the skip over the MP_REACH_NLRI next hop;
  - the 16-octet marker skip;
  - a prefix length above 128 (see Findings).
- **Timestamps** are integers in microseconds. The header's seconds are multiplied by 10^6, and BGP4MP_ET adds its 32-bit microsecond field.
- **Unset counts.** `local_pref`, `multi_exit_disc` and `aggregator_as` are declared without an initialiser. When no attribute sets them, the model says `None`.
- **The `address` type** is defined elsewhere in VAST. It is modelled minimally:
  - 16 octets;
  - IPv4 when the first 12 octets are the IPv4-mapped prefix `::ffff:0:0/96`, which puts an IPv4 address in the last four octets;
  - `mask(n)` clears the bits from n to 127;
  - `compare(b, n)` compares the first n bits;
  - `<` is lexicographic on the octets.

## Model

| member | source | states |
|---|---|---|
| Bytes.CountSub | libvast/src/format/mrt.cpp:142 | unsigned `count` subtraction: a − b when it does not underflow, otherwise a − b + 2^64; always below 2^64 |
| Bytes.U8 | libvast/src/format/mrt.cpp:122-123 | a one-octet field is read exactly when one octet remains, and is below 256 |
| Bytes.U16 | libvast/src/format/mrt.cpp:96-99 | a big-endian 16-bit field is read exactly when two octets remain, and is below 2^16 |
| Bytes.U32 | libvast/src/format/mrt.cpp:96-99 | a big-endian 32-bit field is read exactly when four octets remain, and is below 2^32 |
| Bytes.Octets | libvast/src/format/mrt.cpp:429 | a slice of n octets exists exactly when n octets remain, and has length n |
| Bytes.U16RoundTrip | libvast/src/format/mrt.cpp:96-99 | a 16-bit value written big-endian is read back |
| Bytes.U32RoundTrip | libvast/src/format/mrt.cpp:96-99 | a 32-bit value written big-endian is read back |
| Bytes.U8RoundTrip | libvast/src/format/mrt.cpp:122-123 | an octet value is read back |
| Addresses.FromV4 | libvast/src/format/mrt.cpp:158-160 | an IPv4 address is IPv4 and holds its four octets at the end |
| Addresses.V4At | libvast/src/format/mrt.cpp:219-221 | an IPv4 field is read exactly when four octets remain; the address is IPv4 and holds those octets |
| Addresses.V6At | libvast/src/format/mrt.cpp:224-226 | an IPv6 field is read exactly when 16 octets remain; the address is those octets |
| Addresses.MaskBit | libvast/src/subnet.cpp:45 | bit i of the masked address is bit i of the address when i < n, and 0 otherwise |
| Addresses.MaskedIff | libvast/src/subnet.cpp:45 | masking leaves an address unchanged exactly when all its bits from n on are 0 |
| Addresses.MaskIdempotent | libvast/src/subnet.cpp:45 | masking twice to the same length equals masking once |
| Addresses.CompareBits | libvast/src/subnet.cpp:21-23 | `compare(b, n)` holds exactly when the first n bits of both addresses agree |
| Addresses.MaskKeepsFamily | libvast/src/subnet.cpp:38-45 | masking to 96 bits or more keeps an address IPv4 exactly when it was IPv4 |
| Addresses.ShortMaskIsNotV4 | libvast/src/subnet.cpp:42-45 | masking to fewer than 96 bits never yields an IPv4 address |
| Addresses.LessIsStrictTotalOrder | libvast/src/subnet.cpp:53-55 | address `<` is irreflexive, transitive and total |
| Addresses.Mask | libvast/src/subnet.cpp:45 | defines `mask(n)`: every bit from n on cleared, octet by octet; `MaskBit`, `MaskedIff` and `MaskIdempotent` state its meaning |
| Addresses.Compare | libvast/src/subnet.cpp:21-23 | defines `compare(b, n)` as agreement of the two addresses masked to n; `CompareBits` states it bit by bit |
| Addresses.Less | libvast/src/subnet.cpp:53-55 | defines address `<` as lexicographic order on the 16 octets; `LessIsStrictTotalOrder` states its order properties |
| Subnets.Subnet.Default | libvast/src/subnet.cpp:10-11 | the default subnet is the unspecified address with length 0 |
| Subnets.Subnet.constructor | libvast/src/subnet.cpp:13-19 | construction assigns the fields, initialises them in place, and resets to the default subnet when initialisation fails |
| Subnets.Subnet.Initialize | libvast/src/subnet.cpp:37-47 | succeeds exactly for a v4 length of at most 32 or a v6 length of at most 128; then stores the offset length and the masked network; on failure changes nothing |
| Subnets.MakeSubnetMasked | libvast/src/subnet.cpp:45 | a constructed subnet has a stored length of at most 128 and no network bit set from that length on |
| Subnets.MakeSubnetLength | libvast/src/subnet.cpp:33-42 | for an in-range length l the stored length is l + 96 (v4) or l (v6), `length()` returns l, and the family is kept |
| Subnets.MakeSubnetResets | libvast/src/subnet.cpp:13-19 | a v4 length above 32 or a v6 length above 128 yields the default subnet, whose `length()` is 0 |
| Subnets.DefaultSubnetLength | libvast/src/subnet.cpp:10-11 | a default subnet has `length()` 0 and stored length 0 |
| Subnets.ContainsBits | libvast/src/subnet.cpp:25-27 | `contains(other)` holds exactly when this length is at most the other's and the other's network agrees with this network on this length's bits |
| Subnets.ContainsAddressMasked | libvast/src/subnet.cpp:21-23 | `contains(addr)` holds exactly when the address masked to the stored length is the network, for a masked subnet |
| Subnets.ContainsReflexive | libvast/src/subnet.cpp:25-27 | every subnet contains itself |
| Subnets.ContainsTransitive | libvast/src/subnet.cpp:25-27 | containment is transitive for subnets whose stored length is at most 128 |
| Subnets.MakeSubnetContainsAddress | libvast/src/subnet.cpp:13-27 | a subnet constructed from an address contains that address |
| Subnets.LessIsStrictTotalOrder | libvast/src/subnet.cpp:53-55 | subnet `<`, lexicographic on (network, stored length), is irreflexive, transitive and total |
| Subnets.Initialized | libvast/src/subnet.cpp:37-47 | defines `initialize()`: a v4 length above 32 or another length above 128 fails, otherwise the v4 offset of 96 is added and the network masked; `Subnet.Initialize` is proved against it |
| Subnets.MakeSubnet | libvast/src/subnet.cpp:13-19 | defines `subnet(addr, length)`: the initialised value, or the default subnet on failure; `MakeSubnetMasked`, `MakeSubnetLength` and `MakeSubnetResets` state its properties |
| Subnets.Length | libvast/src/subnet.cpp:33-35 | defines `length()`: the stored length minus 96 for a v4 network, as a `uint8_t`; `MakeSubnetLength` proves it undoes construction |
| Subnets.ContainsAddress | libvast/src/subnet.cpp:21-23 | defines `contains(addr)` as `compare` of the address with the network on the stored length; `ContainsAddressMasked` states it in terms of `mask` |
| Subnets.Contains | libvast/src/subnet.cpp:25-27 | defines `contains(other)`: a length at most the other's and the other's network contained; `ContainsBits`, `ContainsReflexive` and `ContainsTransitive` state its properties |
| Subnets.Less | libvast/src/subnet.cpp:53-55 | defines subnet `<` as tuple order on (network, stored length); `LessIsStrictTotalOrder` states its order properties |
| Subnets.SameLengthEqualIffContains | libvast/src/subnet.cpp:49-51 | two subnets built with one length from addresses of one family are equal (`operator==` on network and stored length) exactly when the first contains the other's address |
| MrtEvents.MovedFrom | libvast/src/format/mrt.cpp:773-778 | moving out of the attribute variables empties AS path, origin and communities and keeps every other field |
| MrtEvents.Withdrawals | libvast/src/format/mrt.cpp:358-369 | one withdrawal per prefix, in order, each with the header time, peer IP and peer AS |
| MrtEvents.Announcements | libvast/src/format/mrt.cpp:765-785 | one announcement per prefix, in order, from the peer; the first carries the accumulated attributes, later ones the moved-from attributes, all with the given next hop |
| MrtEvents.AfterAnnouncements | libvast/src/format/mrt.cpp:765-785 | after the loop the attribute variables are unchanged when there was no prefix and moved-from otherwise |
| MrtEvents.EmitWithdrawals | libvast/src/format/mrt.cpp:358-369 | the withdrawal loop appends exactly the withdrawals of the prefixes |
| MrtEvents.EmitAnnouncements | libvast/src/format/mrt.cpp:765-785 | the announcement loop appends exactly the announcements and leaves the variables moved-from |
| MrtEvents.AnnouncementsConcat | libvast/src/format/mrt.cpp:765-785 | announcing two runs of prefixes in a row, the second from the variables the first left, equals announcing both at once, and leaves the same variables |
| Prefixes.PrefixByteCount | libvast/src/format/mrt.cpp:125-126 | the number of prefix octets is the least n with 8n ≥ L |
| Prefixes.PrefixByteCountDivision | libvast/src/format/mrt.cpp:125-126 | that number is L / 8, plus one when L % 8 is not 0 |
| Prefixes.PrefixOctets | libvast/src/format/mrt.cpp:125-126 | the division and round-up compute the number of prefix octets |
| Prefixes.DecodePrefix | libvast/src/format/mrt.cpp:121-131 | a decoded prefix is a length octet followed by exactly ceil(L/8) octets inside the buffer, with L at most 128 |
| Prefixes.LeftAligned | libvast/src/format/mrt.cpp:127-132 | the prefix octets fill the front of a 16-octet buffer and the rest is 0 |
| Prefixes.PrefixAddress | libvast/src/format/mrt.cpp:133-140 | an IPv4 prefix address holds the first four buffer octets; an IPv6 one is the whole buffer |
| Prefixes.CopyOctets | libvast/src/format/mrt.cpp:127-132 | the copy loop succeeds exactly when n octets remain, and fills a fresh 16-octet array left-aligned |
| Prefixes.ReadPrefix | libvast/src/format/mrt.cpp:121-141 | reading one prefix succeeds exactly when the decoder accepts it, yields its subnet and moves to its end |
| Prefixes.ParsePrefixes | libvast/src/format/mrt.cpp:120-145 | the budget loop succeeds exactly when the prefix list decodes; its prefixes are the decoded ones in wire order |
| Prefixes.DecodePrefixesStep | libvast/src/format/mrt.cpp:120-143 | a bad prefix fails the list; a good one is followed by the list under the budget minus its size, with the unsigned subtraction |
| Prefixes.DecodePrefixesZero | libvast/src/format/mrt.cpp:120 | a budget of 0 yields no prefixes and consumes nothing |
| Prefixes.DecodePrefixesWellFormed | libvast/src/format/mrt.cpp:120-143 | every decoded prefix is well formed, and a positive budget consumes at least one octet inside the buffer |
| Prefixes.DecodePrefixesExact | libvast/src/format/mrt.cpp:142 | a decoded list consumes exactly its budget, and its wire size is the budget |
| Prefixes.DecodeConsPrefix | libvast/src/format/mrt.cpp:120-143 | an encoded prefix followed by an encoded list decodes to that prefix followed by the list |
| Prefixes.DecodeEncodedPrefixes | libvast/src/format/mrt.cpp:120-143 | round trip: an encoded prefix list decodes to itself under its wire size as budget |
| Prefixes.DenotedMasked | libvast/src/format/mrt.cpp:133-140 | every decoded subnet is masked |
| Prefixes.V4PrefixLength | libvast/src/format/mrt.cpp:133-136 | an IPv4 prefix of length at most 32 has `length()` L and stored length L + 96; a longer one is the default subnet |
| Prefixes.DecodePrefixes | libvast/src/format/mrt.cpp:120-143 | defines the prefix loop: pairs while the budget is positive, the budget charged each pair's size with the unsigned subtraction; `DecodePrefixesExact`, `DecodePrefixesWellFormed` and `DecodeEncodedPrefixes` state its properties |
| Prefixes.PrefixSubnet | libvast/src/format/mrt.cpp:133-140 | defines the subnet of one pair: its octets left-aligned in `ip`, the address of the family, and the length octet; `V4PrefixLength` and `DenotedMasked` state its properties |
| Prefixes.Denoted | libvast/src/format/mrt.cpp:133-141 | the subnets of the decoded pairs, one per pair and in order |
| Prefixes.AsWrittenStores | libvast/src/format/mrt.cpp:125-131 | as written, the copy loop stores prefix octet i at `ip[i]` for every i below ceil(L/8) while octets remain, whatever L |
| Prefixes.AsWrittenCopy | libvast/src/format/mrt.cpp:121-131 | the copy loop without a bound on the octet count writes exactly those indices, and succeeds exactly when ceil(L/8) octets remain |
| Prefixes.AsWrittenOverrunsIp | libvast/src/format/mrt.cpp:125-131 | as written, a length octet above 128 with 17 octets after it makes the copy loop store at index 16 of the 16-octet `ip`; a length of 200 makes it store 25 octets |
| Prefixes.DecodePrefixRejectsOverlong | libvast/src/format/mrt.cpp:125-131 | the corrected decoder accepts only lengths of at most 128 and rejects every larger one |
| Attributes.AsNumber | libvast/src/format/mrt.cpp:467-473 | an AS number is read exactly when 4 (as4) or 2 octets remain |
| Attributes.DecodeNumbers | libvast/src/format/mrt.cpp:460-477 | a decoded list of numbers has the requested count |
| Attributes.ReadNumberList | libvast/src/format/mrt.cpp:460-477 | the number loop succeeds exactly when the list decodes and appends its values |
| Attributes.DecodeNumbersSucceeds | libvast/src/format/mrt.cpp:460-477 | n numbers decode exactly when n times the width octets remain |
| Attributes.DecodeEncodedNumbers | libvast/src/format/mrt.cpp:460-477 | round trip: encoded numbers decode to themselves |
| Attributes.Count48 | libvast/src/format/mrt.cpp:318-325 | the `count48` loop yields the 48-bit big-endian value times 256 |
| Attributes.Count48Fits | libvast/src/format/mrt.cpp:318-325 | that value fits in 64 bits and its low octet is 0, so the 64-bit shift loses nothing |
| Attributes.ExtendedCommunities | libvast/src/format/mrt.cpp:704-716 | an extended-communities value of length n yields n / 8 values |
| Attributes.ReadExtendedCommunities | libvast/src/format/mrt.cpp:704-716 | the loop, advancing 4 octets per community, always succeeds and appends the values read at offsets 0, 4, 8, … |
| Attributes.DecodeMpReachHeader | libvast/src/format/mrt.cpp:587-615 | the fixed part decodes exactly when the value has 4 octets, the AFI is 1 or 2, the next hop of that family fits after the 4 octets, and 5 + next-hop-length octets fit; the family is IPv4 exactly for AFI 1, the next hop is the address read at offset 4, the prefixes start at 5 + next-hop-length, and their budget is the rest of the value, in 64-bit arithmetic |
| Attributes.DecodeAttributeHeader | libvast/src/format/mrt.cpp:401-429 | the header decodes exactly when flags, type code and the length field are there and the value they announce fits; the type code is the second octet, the length field is two octets (big-endian) when bit 0x10 of the flags is set and one octet otherwise, and the value starts right after it |
| Attributes.AttributeRoundTrip | libvast/src/format/mrt.cpp:401-429 | round trip of one encoded attribute: its header decodes to its type code, Extended Length bit and value length, the framed slice is its value, and the budget is charged its encoded size |
| Attributes.FrameEncodedAttributes | libvast/src/format/mrt.cpp:399-746 | round trip of the loop's framing: encoded attributes under a budget of their size frame to their type codes and values in wire order and stop right after them |
| Attributes.DecodeOrigin | libvast/src/format/mrt.cpp:436-447 | defines ORIGIN: one code octet; `OriginCodes` states its cases |
| Attributes.DecodeAsPath | libvast/src/format/mrt.cpp:451-483 | defines AS_PATH: segment type, segment length and that many AS numbers appended; `AsPathEntries` states it |
| Attributes.DecodeNextHop | libvast/src/format/mrt.cpp:487-494 | defines NEXT_HOP: an IPv4 address, read as `V4At` states |
| Attributes.DecodeMed | libvast/src/format/mrt.cpp:498-506 | defines MULTI_EXIT_DISC: a 32-bit value, read as `U32` states |
| Attributes.DecodeLocalPref | libvast/src/format/mrt.cpp:510-517 | defines LOCAL_PREF: a 32-bit value, read as `U32` states |
| Attributes.DecodeAggregator | libvast/src/format/mrt.cpp:532-546 | defines AGGREGATOR: an AS number of the message's width, then an IPv4 address |
| Attributes.DecodeCommunities | libvast/src/format/mrt.cpp:553-563 | defines COMMUNITIES: a 32-bit value per full 4 octets, appended; `CommunitiesCount` and `CommunitiesRoundTrip` state it |
| Attributes.DecodeMpReach | libvast/src/format/mrt.cpp:581-643 | defines MP_REACH_NLRI: the fixed part, then announcements of its prefixes through its next hop; `MpReachEvents` and `MpReachFillsValue` state its properties |
| Attributes.DecodeMpAnnouncements | libvast/src/format/mrt.cpp:618-642 | defines the prefixes of MP_REACH_NLRI announced through the MP next hop |
| Attributes.DecodeMpUnreach | libvast/src/format/mrt.cpp:655-686 | defines MP_UNREACH_NLRI: prefixes after 3 octets under the value length minus 3, one withdrawal each; `MpUnreachEvents` and `MpUnreachFillsValue` state its properties |
| Attributes.DecodeExtendedCommunities | libvast/src/format/mrt.cpp:704-716 | defines EXTENDED COMMUNITIES: the values of `ExtendedCommunities` appended to the communities |
| Attributes.DecodeAttributeValue | libvast/src/format/mrt.cpp:436-740 | defines the dispatch on the type code, ATOMIC_AGGREGATE setting its flag and codes 17, 18 and unknown codes skipped; `SkippedCodes` and `AttributeValueFromPeer` state its properties |
| Attributes.FrameAttributes | libvast/src/format/mrt.cpp:399-429 | defines the framing of the loop: headers while the budget is positive, each charged its size with the unsigned subtraction; `FrameAttributesExact` and `FrameEncodedAttributes` state its properties |
| Attributes.ApplyAttributes | libvast/src/format/mrt.cpp:436-740 | defines the decoding of framed values in order up to the first failure; `ApplyConcat` and `ApplyAttributesFromPeer` state its properties |
| Attributes.DecodeAttributes | libvast/src/format/mrt.cpp:399-746 | defines the attribute loop as framing followed by decoding; `DecodeAttributesExact` and `DecodeAttributesFromPeer` state its properties |
| Attributes.ParseAttributeValue | libvast/src/format/mrt.cpp:436-740 | the chain of `if`s on the type code succeeds exactly when `DecodeAttributeValue` does, with its attributes and events; on failure it appends nothing |
| Attributes.ParseMpReach | libvast/src/format/mrt.cpp:581-643 | the reads of AFI, next hop length and next hop, then the prefix and announcement loops, succeed exactly when `DecodeMpReach` does, with its attributes and events; on failure nothing is appended |
| Attributes.AnnounceMpPrefixes | libvast/src/format/mrt.cpp:618-642 | the prefix loop and the announcement loop of MP_REACH_NLRI equal `DecodeMpAnnouncements`; on failure nothing is appended |
| Attributes.ParseMpUnreach | libvast/src/format/mrt.cpp:655-686 | MP_UNREACH_NLRI, through the prefix and withdrawal loops, equals `DecodeMpUnreach`; on failure nothing is appended |
| Attributes.ParseAttributes | libvast/src/format/mrt.cpp:399-746 | the attribute loop succeeds exactly as specified, with the specified attributes, events and end position; the events are also kept on failure |
| Attributes.FrameStep | libvast/src/format/mrt.cpp:400-746 | one iteration of the loop frames one attribute and charges its size to the budget |
| Attributes.ApplyOneMore | libvast/src/format/mrt.cpp:436-740 | applying one more attribute value extends the attributes and the events |
| Attributes.ApplyFails | libvast/src/format/mrt.cpp:436-740 | a failing attribute value stops the loop with the events so far |
| Attributes.LoopEnds | libvast/src/format/mrt.cpp:400-746 | a loop that ends has decoded exactly the specified attributes and events |
| Attributes.LoopFails | libvast/src/format/mrt.cpp:400-746 | a loop that fails has appended exactly the specified events |
| Attributes.ApplyConcat | libvast/src/format/mrt.cpp:400-746 | applying two runs of attributes in a row equals applying their concatenation |
| Attributes.ChargeIsSize | libvast/src/format/mrt.cpp:741-745 | the budget charge, attribute length + 4 or + 3, is exactly what the cursor advances |
| Attributes.FrameAttributesBounds | libvast/src/format/mrt.cpp:400-746 | the framing never moves backwards, and a framing that completes stays inside the buffer |
| Attributes.FrameAttributesExact | libvast/src/format/mrt.cpp:741-745 | a framing that completes consumes exactly the total path attribute length |
| Attributes.DecodeAttributesExact | libvast/src/format/mrt.cpp:741-745 | a successful attribute loop ends exactly at the start plus the total path attribute length |
| Attributes.AttributeValueFromPeer | libvast/src/format/mrt.cpp:621-684 | every event of an attribute value is a route event from the peer with the header time |
| Attributes.ApplyAttributesFromPeer | libvast/src/format/mrt.cpp:621-684 | so is every event of a run of attributes |
| Attributes.DecodeAttributesFromPeer | libvast/src/format/mrt.cpp:621-684 | so is every event of the attribute loop |
| Attributes.SkippedCodes | libvast/src/format/mrt.cpp:726-740 | AS4_PATH, AS4_AGGREGATOR and unknown codes change nothing and append nothing |
| Attributes.OriginCodes | libvast/src/format/mrt.cpp:436-450 | ORIGIN 0, 1, 2 name IGP, EGP, INCOMPLETE; other codes change nothing; only an empty value fails |
| Attributes.AsPathEntries | libvast/src/format/mrt.cpp:451-486 | AS_PATH succeeds exactly when the segment header and its entries of the AS width fit, and appends exactly `path_segment_length` entries |
| Attributes.CommunitiesCount | libvast/src/format/mrt.cpp:553-560 | COMMUNITIES always succeeds and appends exactly attribute length / 4 values |
| Attributes.CommunitiesRoundTrip | libvast/src/format/mrt.cpp:553-560 | encoded communities are appended as themselves |
| Attributes.MpReachFillsValue | libvast/src/format/mrt.cpp:593 | in a successfully decoded MP_REACH_NLRI value, the NLRI budget is exactly the octets after the next hop, and the prefixes fill them |
| Attributes.MpUnreachFillsValue | libvast/src/format/mrt.cpp:664 | in a successfully decoded MP_UNREACH_NLRI value, the prefixes after the 3 fixed octets fill the attribute length minus 3 exactly |
| Attributes.MpUnreachEvents | libvast/src/format/mrt.cpp:670-684 | MP_UNREACH_NLRI only withdraws and leaves the attributes unchanged |
| Attributes.MpReachEvents | libvast/src/format/mrt.cpp:601-641 | a successful MP_REACH_NLRI has AFI 1 or 2, and every event it yields is an announcement with the next hop it read for that family |
| BgpMessages.DecodeOpen | libvast/src/format/mrt.cpp:246-308 | defines OPEN: Version, My Autonomous System of the AS width, Hold Time, BGP Identifier and Opt Parm Len; `OpenWidth` and `OpenRoundTrip` state its properties |
| BgpMessages.DecodeNotification | libvast/src/format/mrt.cpp:790-818 | defines NOTIFICATION: error code and subcode; `NotificationFields` states it |
| BgpMessages.DecodeKeepalive | libvast/src/format/mrt.cpp:820-834 | defines KEEPALIVE: one record with the header time; `KeepaliveReadsNothing` states it |
| BgpMessages.DecodeUpdate | libvast/src/format/mrt.cpp:310-788 | defines UPDATE: withdrawn routes, then the rest, events of a failure kept; `UpdateWithdrawalsFirst`, `UpdateFromPeer` and `UpdateWithdrawnFailure` state its properties |
| BgpMessages.DecodeUpdateTail | libvast/src/format/mrt.cpp:371-788 | defines the part after the withdrawn routes: Total Path Attribute Length, the attribute loop, then the NLRI; `UpdateAnnouncementsLast` states its properties |
| BgpMessages.DecodeNlri | libvast/src/format/mrt.cpp:748-785 | defines the NLRI: prefixes under the computed length, one announcement each with the loop's attributes and NEXT_HOP |
| BgpMessages.OpenWidth | libvast/src/format/mrt.cpp:280-294 | OPEN needs 12 (as4) or 10 octets and yields one open event; on failure none |
| BgpMessages.OpenRoundTrip | libvast/src/format/mrt.cpp:280-307 | round trip: an encoded OPEN decodes to its fields with the header time |
| BgpMessages.NotificationFields | libvast/src/format/mrt.cpp:803-817 | NOTIFICATION needs two octets and yields error code and subcode; on failure no event |
| BgpMessages.NlriLength | libvast/src/format/mrt.cpp:756-757 | the NLRI length is BGP length − 23 − total path attribute length − withdrawn routes length, in 64-bit unsigned arithmetic |
| BgpMessages.ParseUpdate | libvast/src/format/mrt.cpp:310-788 | the UPDATE parser decodes exactly as its specification, events on failure included |
| BgpMessages.ParseUpdateTail | libvast/src/format/mrt.cpp:371-788 | the part after the withdrawals decodes exactly as its specification |
| BgpMessages.UpdateFromPeer | libvast/src/format/mrt.cpp:358-369 | every event of an UPDATE is a route event from the peer with the header time |
| BgpMessages.UpdateTailFromPeer | libvast/src/format/mrt.cpp:765-785 | so is every event after the withdrawals |
| BgpMessages.UpdateWithdrawalsFirst | libvast/src/format/mrt.cpp:350-369 | the events of an UPDATE start with one withdrawal per withdrawn prefix, in wire order |
| BgpMessages.UpdateWithdrawnFailure | libvast/src/format/mrt.cpp:350-357 | an UPDATE whose withdrawn routes do not decode fails with no events |
| BgpMessages.UpdateAnnouncementsLast | libvast/src/format/mrt.cpp:756-785 | the events of a successful UPDATE end with one announcement per NLRI prefix, in wire order, with the attributes and next hop of the attribute loop |
| BgpMessages.EmptyUpdate | libvast/src/format/mrt.cpp:350-387 | an UPDATE with empty withdrawn routes and path attributes and a BGP length of 23, so no NLRI, succeeds with no events |
| Bgp4mp.DecodePeerHeader | libvast/src/format/mrt.cpp:878-890 | the envelope decodes exactly when 12 (as4) or 8 octets are there; Peer AS and Local AS are the AS numbers of that width at offsets 0 and w, Interface Index and Address Family the 16-bit fields at 2w and 2w + 2, and the addresses start at 2w + 4 |
| Bgp4mp.DecodePeerAddresses | libvast/src/format/mrt.cpp:901-913 | the addresses decode exactly for AFI 1 with 8 octets left or AFI 2 with 32; for AFI 1 they are the IPv4 addresses of the first and second four octets, for AFI 2 the IPv6 addresses of the first and second sixteen |
| Bgp4mp.DecodeStateChange | libvast/src/format/mrt.cpp:152-244 | a state change yields exactly one event with the header time on success and none on failure |
| Bgp4mp.PeerHeaderRoundTrip | libvast/src/format/mrt.cpp:878-890 | round trip of the envelope: encoded AS numbers, Interface Index and Address Family decode to themselves, whatever follows |
| Bgp4mp.PeerAddressesRoundTrip | libvast/src/format/mrt.cpp:901-913 | round trip of the addresses: two encoded addresses of AFI 1 or 2 decode to the addresses of that family |
| Bgp4mp.StateChangeRoundTrip | libvast/src/format/mrt.cpp:152-244 | round trip of a state change: an encoded state change decodes to its one event with the header time, the peer address of its family, the peer AS and both states |
| Bgp4mp.StateChangeSize | libvast/src/format/mrt.cpp:195-243 | a state change succeeds exactly when the envelope, an AFI of 1 or 2, its addresses and the two states fit; its one event holds the header time, the peer address read after the envelope, the peer AS, and Old State and New State after both addresses; on failure no event |
| Bgp4mp.DecodeBgpHeader | libvast/src/format/mrt.cpp:933-939 | the BGP header decodes exactly when 19 octets remain; the marker is skipped unread, the Length is the 16-bit big-endian field after it and the Type the octet after that, and the body starts 19 octets in |
| Bgp4mp.BgpHeaderRoundTrip | libvast/src/format/mrt.cpp:933-939 | round trip of the BGP header: any 16 marker octets, an encoded Length and a Type decode to that Length and Type, with the body right after them |
| Bgp4mp.DecodeMessage | libvast/src/format/mrt.cpp:836-968 | defines a BGP4MP message: envelope, addresses, BGP header, then the body; `MessageStamped` and `MessagePeer` state its properties |
| Bgp4mp.DecodeBody | libvast/src/format/mrt.cpp:956-967 | defines the dispatch on the BGP type; `UnsupportedMessageType` and `KeepaliveReadsNothing` state its cases |
| Bgp4mp.ParseMessage | libvast/src/format/mrt.cpp:836-968 | the BGP4MP message parser decodes exactly as its specification |
| Bgp4mp.MessageEnvelopeWidth | libvast/src/format/mrt.cpp:878-890 | the envelope drops 12 octets with as4 and 8 without, and its AFI is the 16-bit field just before |
| Bgp4mp.UnsupportedMessageType | libvast/src/format/mrt.cpp:956-967 | a BGP type other than 1 to 4 fails with no events |
| Bgp4mp.KeepaliveReadsNothing | libvast/src/format/mrt.cpp:820-834 | a KEEPALIVE yields one keepalive event whatever its body |
| Bgp4mp.DecodeBgp4mp | libvast/src/format/mrt.cpp:970-999 | defines the subtype dispatch; `UnsupportedSubtype` and `Bgp4mpStamped` state its properties |
| Bgp4mp.ParseBgp4mp | libvast/src/format/mrt.cpp:970-999 | the subtype dispatch decodes exactly as its specification |
| Bgp4mp.DecodeBgp4mpEt | libvast/src/format/mrt.cpp:1001-1029 | defines BGP4MP_ET; `EtIsBgp4mp` and `Bgp4mpEtStamped` state its properties |
| Bgp4mp.ParseBgp4mpEt | libvast/src/format/mrt.cpp:1001-1029 | the BGP4MP_ET parser decodes exactly as its specification |
| Bgp4mp.EtIsBgp4mp | libvast/src/format/mrt.cpp:1022-1028 | BGP4MP_ET fails with no events without four octets; otherwise it is BGP4MP on the rest with the microseconds added to the time |
| Bgp4mp.UnsupportedSubtype | libvast/src/format/mrt.cpp:984-998 | a subtype other than 0, 1, 4, 5 fails with no events, also under BGP4MP_ET |
| Bgp4mp.Bgp4mpStamped | libvast/src/format/mrt.cpp:970-999 | every event of a BGP4MP body carries the header time |
| Bgp4mp.MessageStamped | libvast/src/format/mrt.cpp:956-967 | every event of a BGP4MP message carries the header time |
| Bgp4mp.Bgp4mpEtStamped | libvast/src/format/mrt.cpp:1022-1028 | every event of a BGP4MP_ET body carries the header time plus its microseconds |
| Bgp4mp.MessagePeer | libvast/src/format/mrt.cpp:950-959 | every event of an UPDATE message carries the peer IP and peer AS of the envelope |
| Mrt.DecodeHeader | libvast/src/format/mrt.cpp:96-99 | the common header is read exactly when 12 octets are there, and its length is below 2^32 |
| Mrt.HeaderRoundTrip | libvast/src/format/mrt.cpp:96-99 | round trip: an encoded header decodes to itself, whatever follows |
| Mrt.FrameRecord | libvast/src/format/mrt.cpp:1031-1050 | a complete record's body has the header's length and ends inside the stream |
| Mrt.ParseRecord | libvast/src/format/mrt.cpp:1031-1073 | one `parse` never moves the stream backwards nor past its end |
| Mrt.InputStream.constructor | libvast/src/format/mrt.cpp:1076-1078 | a fresh stream stands at its start without end-of-file |
| Mrt.InputStream.Read | libvast/src/format/mrt.cpp:1034-1035 | a read of n octets succeeds exactly when n remain; otherwise it takes the rest and sets end-of-file |
| Mrt.DecodeRecord | libvast/src/format/mrt.cpp:1064-1073 | defines the dispatch on the MRT type; `RecordTypes` and `RecordStamped` state its properties |
| Mrt.ParseBody | libvast/src/format/mrt.cpp:1064-1073 | the dispatch on the MRT type decodes exactly as its specification |
| Mrt.Parse | libvast/src/format/mrt.cpp:1031-1074 | `parse` returns and appends what the record specification says, and leaves the stream where it says |
| Mrt.FrameEncodedRecord | libvast/src/format/mrt.cpp:1031-1050 | an encoded record on the stream is framed as its header and body, and the stream moves past it |
| Mrt.ParseEncodedRecord | libvast/src/format/mrt.cpp:1031-1073 | an encoded record on the stream decodes its body and moves past it |
| Mrt.ShortHeaderIsEnd | libvast/src/format/mrt.cpp:1034-1037 | with fewer than 12 octets left, `parse` succeeds with no events at the end of the stream |
| Mrt.TruncatedRecordFails | libvast/src/format/mrt.cpp:1044-1050 | a body shorter than its length fails with no events at the end of the stream |
| Mrt.ParseProgress | libvast/src/format/mrt.cpp:1031-1050 | `parse` either reaches the end of the stream or moves past exactly one header and body |
| Mrt.RecordTypes | libvast/src/format/mrt.cpp:1064-1073 | type 13 succeeds with no events, types other than 13, 16, 17 fail with none, type 16 is BGP4MP with the time in microseconds |
| Mrt.RecordStamped | libvast/src/format/mrt.cpp:1064-1069 | every event of a BGP4MP record has the header time, and of a BGP4MP_ET record that time plus its microseconds |
| Reader.ReadStep | libvast/src/format/mrt.cpp:1080-1098 | `read` pops the last queued event when there is one; reports end of input exactly when the queue is empty and end-of-file is set, and then changes nothing |
| Reader.AfterParse | libvast/src/format/mrt.cpp:1089-1097 | after parsing, `read` reports a parse error exactly when `parse` failed and keeps its events; otherwise it hands out the last event and keeps the rest, or reports no error with an empty queue |
| Reader.Reader.constructor | libvast/src/format/mrt.cpp:1076-1078 | a fresh reader stands at the start of its input with an empty queue |
| Reader.Reader.Read | libvast/src/format/mrt.cpp:1080-1098 | `reader::read` returns and leaves what `ReadStep` says |
| Reader.Reader.AfterParsing | libvast/src/format/mrt.cpp:1089-1097 | the tail of `read` after `parse` returns and leaves what `AfterParse` says |
| Reader.Drained | libvast/src/format/mrt.cpp:1081-1084 | handing out a queue yields its events last first |
| Reader.DrainQueue | libvast/src/format/mrt.cpp:1081-1084 | as many reads as queued events hand them all out last first and leave the stream untouched |
| Reader.EndOfInputStays | libvast/src/format/mrt.cpp:1086-1088 | once `read` reports end of input, every later call reports it and changes nothing |
| Reader.ReadProgress | libvast/src/format/mrt.cpp:1080-1098 | every other call consumes stream or, with the stream unchanged, shortens the queue, so reading until end of input terminates |
| Reader.ParseErrorKeepsEvents | libvast/src/format/mrt.cpp:1089-1091 | after a parse error the next reads hand out the failed record's events last first, and the stream stands after that record |
| Reader.ReadEncodedRecord | libvast/src/format/mrt.cpp:1080-1098 | with an empty queue and an encoded record next, the reads hand out its events last first and leave the stream after it |

## Left out

- The schema built in the `mrt_parser` constructor and by `reader::schema` (`mrt.cpp:7-73`, `1100-1134`) is not modelled. It is type-system plumbing over record and schema types that are not part of this model.
- `reader::name` is not modelled; it returns a constant string.
- Logging (`VAST_DEBUG`, `VAST_ERROR`, `VAST_WARNING`) has no effect on the result and is not modelled.
- The input stream is modelled as the whole input octets, a position and the end-of-file flag. `std::istream` failures other than reaching the end cannot happen on that input and are not modelled.
- `parse_mrt_header` cannot fail on the 12 octets it is given. The model has no separate failure branch for it.
- Events are values with the fields the source puts in each record. The record and type layout of `vast::event` and `vast::data` is not modelled.
- `address`, `event`, `vast::data` and `timestamp` have internals that are not part of this model. Addresses are 16 octets. Timestamps are integers in microseconds, so the model has no clock or duration type.
- `Subnets.Subnet.constructor` requires a length below 256. This is the range of the `uint8_t` parameter of the source.
- `Subnets.Length`: `length()` of a v4 subnet is taken as the stored length minus 96, modulo 256, for the `uint8_t` result. Every constructed v4 subnet has a stored length of at least 96, so the modulo never applies.
- `convert(subnet, json)` is string formatting through a printer that is not part of this model, and is not modelled.
- Memory reuse in the source's containers (`prefix.clear()`, re-slicing `raw` by copying) is modelled only by its effect, the remaining octets.

## Findings

| source | as written | input that shows it | evidently intended | confidence | as-written member | corrected member |
|---|---|---|---|---|---|---|
| libvast/src/format/mrt.cpp:125-131 | the prefix length octet is not range-checked; the copy loop writes ceil(L/8) octets into the 16-octet `ip` | a prefix whose length octet is 129 or more, with 17 octets after it, makes the loop store at `ip[16]`; a length of 200 makes it store 25 octets | reject a length above 128 as a malformed prefix | not executed | Prefixes.AsWrittenOverrunsIp | Prefixes.DecodePrefixRejectsOverlong |
