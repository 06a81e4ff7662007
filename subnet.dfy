/** The `subnet` value type: a network address together with a prefix
    length.  The length is stored in `length_` on the 128-bit scale, so a v4
    prefix of length l is stored as l + 96; `length()` undoes the offset.
    The constructor masks the network to the stored length and falls back to
    the default subnet when the length is out of range for the family. */
module Subnets {
  import opened Bytes
  import opened Addresses

  /** The value of a `subnet`: `network_` and the stored `length_`. */
  datatype SubnetValue = SubnetValue(network: Address, len: nat)

  /** `subnet()`: the unspecified address with length 0. */
  function DefaultSubnet(): SubnetValue
  {
    SubnetValue(Unspecified(), 0)
  }

  /** `initialize()` on a freshly assigned (network, length): the adjusted
      and masked value, or None when the length is out of range. */
  function Initialized(addr: Address, length: nat): Option<SubnetValue>
  {
    if IsV4(addr) then
      if length > 32 then None else Some(SubnetValue(Mask(addr, length + 96), length + 96))
    else if length > 128 then None
    else Some(SubnetValue(Mask(addr, length), length))
  }

  /** `subnet(addr, length)`: the initialised value, or the default subnet
      when initialisation fails. */
  function MakeSubnet(addr: Address, length: nat): SubnetValue
  {
    match Initialized(addr, length)
    case None => DefaultSubnet()
    case Some(s) => s
  }

  /** `length()`: the stored length minus the v4 offset, as a `uint8_t`. */
  function Length(s: SubnetValue): nat
  {
    if IsV4(s.network) then (s.len - 96) % 0x100 else s.len
  }

  /** `contains(addr)`: the address agrees with the network on the first
      `length_` bits. */
  predicate ContainsAddress(s: SubnetValue, a: Address)
  {
    Compare(a, s.network, s.len)
  }

  /** `contains(other)`: the other subnet is at least as long and its network
      lies inside this subnet. */
  predicate Contains(s: SubnetValue, other: SubnetValue)
  {
    s.len <= other.len && ContainsAddress(s, other.network)
  }

  /** `operator<`: lexicographic on (network, stored length). */
  predicate Less(x: SubnetValue, y: SubnetValue)
  {
    Addresses.Less(x.network, y.network) || (x.network == y.network && x.len < y.len)
  }

  /** Every bit of the network after the stored length is zero. */
  predicate Masked(s: SubnetValue)
  {
    s.len <= 128 && forall i | s.len <= i < 128 :: !Bit(s.network, i)
  }

  /** The `subnet` object: the constructors assign the fields and then
      adjust them in place. */
  class Subnet {
    var network: Address
    var len: nat

    function Value(): SubnetValue
      reads this
    {
      SubnetValue(network, len)
    }

    constructor Default()
      ensures Value() == DefaultSubnet()
    {
      network := Unspecified();
      len := 0;
    }

    constructor (addr: Address, length: nat)
      requires length < 0x100
      ensures Value() == MakeSubnet(addr, length)
    {
      network := addr;
      len := length;
      new;
      var ok := Initialize();
      if !ok {
        network := Unspecified();
        len := 0;
      }
    }

    /** Range-checks the length, adds the v4 offset and masks the network;
        fails without changing anything when the length is out of range. */
    method Initialize() returns (ok: bool)
      modifies this
      ensures ok == Initialized(old(network), old(len)).Some?
      ensures ok ==> Value() == Initialized(old(network), old(len)).value
      ensures !ok ==> Value() == old(Value())
    {
      if IsV4(network) {
        if len > 32 {
          return false;
        }
        len := len + 96;
      } else if len > 128 {
        return false;
      }
      network := Mask(network, len);
      return true;
    }
  }

  // ---------------------------------------------------------------------
  // Properties of construction

  /** A constructed subnet is masked: its network has no bit set after the
      stored length, which is at most 128. */
  lemma MakeSubnetMasked(addr: Address, length: nat)
    ensures Masked(MakeSubnet(addr, length))
  {
    var s := MakeSubnet(addr, length);
    if Initialized(addr, length).None? {
      forall i | 0 <= i < 128
        ensures !Bit(s.network, i)
      {
        assert s.network.bytes[i / 8] == 0;
        ShrZero(7 - i % 8);
      }
    } else {
      forall i | s.len <= i < 128
        ensures !Bit(s.network, i)
      {
        MaskBit(addr, s.len, i);
      }
    }
  }

  /** For a length in range, construction followed by `length()` gives the
      length back; the stored length carries the +96 offset for v4 only. */
  lemma MakeSubnetLength(addr: Address, length: nat)
    requires if IsV4(addr) then length <= 32 else length <= 128
    ensures MakeSubnet(addr, length).len == if IsV4(addr) then length + 96 else length
    ensures Length(MakeSubnet(addr, length)) == length
    ensures IsV4(MakeSubnet(addr, length).network) == IsV4(addr)
  {
    var s := MakeSubnet(addr, length);
    if IsV4(addr) {
      MaskKeepsFamily(addr, length + 96);
    } else if length >= 96 {
      MaskKeepsFamily(addr, length);
    } else {
      ShortMaskIsNotV4(addr, length);
    }
  }

  /** A length out of range for the family resets to the default subnet. */
  lemma MakeSubnetResets(addr: Address, length: nat)
    requires if IsV4(addr) then length > 32 else length > 128
    ensures MakeSubnet(addr, length) == DefaultSubnet()
    ensures Length(MakeSubnet(addr, length)) == 0
  {
    assert Unspecified().bytes[10] == 0;
    assert !IsV4(Unspecified());
  }

  /** A default-constructed subnet has length 0. */
  lemma DefaultSubnetLength()
    ensures Length(DefaultSubnet()) == 0 && DefaultSubnet().len == 0
  {
    assert Unspecified().bytes[..12][10] == 0;
  }

  // ---------------------------------------------------------------------
  // Properties of containment

  /** `contains(other)` holds exactly when this length is at most the
      other's and the other's network agrees with this one on the first
      (stored) length bits. */
  lemma ContainsBits(s: SubnetValue, t: SubnetValue)
    requires s.len <= 128
    ensures Contains(s, t) <==>
              s.len <= t.len && forall i | 0 <= i < s.len :: Bit(t.network, i) == Bit(s.network, i)
  {
    CompareBits(t.network, s.network, s.len);
  }

  /** For a masked subnet, `contains(addr)` means that masking the address
      to the subnet's length yields the network. */
  lemma ContainsAddressMasked(s: SubnetValue, a: Address)
    requires Masked(s)
    ensures ContainsAddress(s, a) <==> Mask(a, s.len) == s.network
  {
    MaskedIff(s.network, s.len);
  }

  lemma ContainsReflexive(s: SubnetValue)
    ensures Contains(s, s)
  {
  }

  lemma ContainsTransitive(r: SubnetValue, s: SubnetValue, t: SubnetValue)
    requires r.len <= 128 && s.len <= 128
    requires Contains(r, s) && Contains(s, t)
    ensures Contains(r, t)
  {
    ContainsBits(r, s);
    ContainsBits(s, t);
    ContainsBits(r, t);
  }

  /** A masked subnet contains every address it was built from. */
  lemma MakeSubnetContainsAddress(addr: Address, length: nat)
    requires if IsV4(addr) then length <= 32 else length <= 128
    ensures ContainsAddress(MakeSubnet(addr, length), addr)
  {
    var s := MakeSubnet(addr, length);
    MaskIdempotent(addr, s.len);
  }

  // ---------------------------------------------------------------------
  // Properties of equality and order

  /** `operator==` compares network and stored length.  Two subnets built
      with the same length from addresses of one family are equal exactly
      when the first contains the other's address: they are the same
      network exactly when the addresses agree on the prefix bits. */
  lemma SameLengthEqualIffContains(a: Address, b: Address, length: nat)
    requires IsV4(a) == IsV4(b)
    requires if IsV4(a) then length <= 32 else length <= 128
    ensures MakeSubnet(a, length) == MakeSubnet(b, length) <==> ContainsAddress(MakeSubnet(a, length), b)
  {
    var s := MakeSubnet(a, length);
    MakeSubnetMasked(a, length);
    ContainsAddressMasked(s, b);
  }

  /** `operator<` is a strict total order. */
  lemma LessIsStrictTotalOrder(x: SubnetValue, y: SubnetValue, z: SubnetValue)
    ensures !Less(x, x)
    ensures Less(x, y) && Less(y, z) ==> Less(x, z)
    ensures Less(x, y) || x == y || Less(y, x)
  {
    Addresses.LessIsStrictTotalOrder(x.network, y.network, z.network);
    Addresses.LessIsStrictTotalOrder(x.network, z.network, y.network);
    Addresses.LessIsStrictTotalOrder(y.network, x.network, z.network);
  }
}
