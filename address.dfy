/** The minimal model of the `address` value type that `subnet` is built
    on.  The type itself is not part of this model; what the decoder and
    `subnet` rely on is:
    - an address is 16 octets in network byte order;
    - a v4 address holds its 4 octets in the last four positions, behind
      the IPv4-mapped prefix ::ffff:0:0/96 (RFC 4291 section 2.5.5.2),
      which is why a v4 prefix length is stored with an offset of 96;
    - `mask(n)` zeroes every bit after the first `n`;
    - `compare(other, n)` is true when the first `n` bits agree;
    - `==` and `<` compare the 16 octets (lexicographically for `<`). */
module Addresses {
  import opened Bytes

  type Octets16 = s: seq<Byte> | |s| == 16 witness seq(16, _ => 0)

  datatype Address = Address(bytes: Octets16)

  const V4MappedPrefix: seq<Byte> := [0, 0, 0, 0, 0, 0, 0, 0, 0, 0, 0xFF, 0xFF]

  /** `address{}`: all sixteen octets zero (the IPv6 unspecified address). */
  function Unspecified(): Address
  {
    Address(seq(16, _ => 0))
  }

  /** An IPv4 address built from its four octets in network order. */
  function FromV4(octets: seq<Byte>): (a: Address)
    requires |octets| == 4
    ensures IsV4(a) && a.bytes[12..] == octets
  {
    Address(V4MappedPrefix + octets)
  }

  /** An IPv6 address built from its sixteen octets in network order. */
  function FromV6(octets: seq<Byte>): (a: Address)
    requires |octets| == 16
    ensures a.bytes == octets
  {
    Address(octets)
  }

  /** The `ipv4` parser: four octets in network order. */
  function V4At(buf: seq<Byte>, pos: nat): (r: Option<Address>)
    ensures r.Some? <==> pos + 4 <= |buf|
    ensures r.Some? ==> IsV4(r.value) && r.value.bytes[12..] == buf[pos..pos + 4]
  {
    if pos + 4 <= |buf| then Some(FromV4(buf[pos..pos + 4])) else None
  }

  /** The `ipv6` parser: sixteen octets in network order. */
  function V6At(buf: seq<Byte>, pos: nat): (r: Option<Address>)
    ensures r.Some? <==> pos + 16 <= |buf|
    ensures r.Some? ==> r.value.bytes == buf[pos..pos + 16]
  {
    if pos + 16 <= |buf| then Some(FromV6(buf[pos..pos + 16])) else None
  }

  predicate IsV4(a: Address)
  {
    a.bytes[..12] == V4MappedPrefix
  }

  /** `x >> n`: the value without its `n` lowest bits. */
  function Shr(x: nat, n: nat): nat
  {
    if n == 0 then x else Shr(x / 2, n - 1)
  }

  /** The value with its `n` lowest bits cleared. */
  function ClearLow(x: nat, n: nat): (c: nat)
    ensures c <= x
  {
    if n == 0 then x else 2 * ClearLow(x / 2, n - 1)
  }

  /** Bit `j` of an octet, counting from the most significant bit. */
  predicate OctetBit(b: Byte, j: nat)
    requires j < 8
  {
    Shr(b as nat, 7 - j) % 2 == 1
  }

  /** The octet `b` with only its first `k` bits kept. */
  function HighBits(b: Byte, k: nat): Byte
    requires k <= 8
  {
    ClearLow(b as nat, 8 - k) as Byte
  }

  /** Bit `i` of an address, counting from the most significant bit of its
      first octet. */
  predicate Bit(a: Address, i: nat)
    requires i < 128
  {
    OctetBit(a.bytes[i / 8], i % 8)
  }

  /** Octet `i` of an address masked to its first `n` bits. */
  function MaskOctet(b: Byte, i: nat, n: nat): Byte
  {
    if 8 * (i + 1) <= n then b
    else if n <= 8 * i then 0
    else HighBits(b, n - 8 * i)
  }

  /** `mask(n)`: keep the first `n` bits, zero the rest. */
  function Mask(a: Address, n: nat): Address
  {
    Address(seq(16, i requires 0 <= i < 16 => MaskOctet(a.bytes[i], i, n)))
  }

  /** `compare(other, n)`: the first `n` bits of both addresses agree. */
  predicate Compare(a: Address, b: Address, n: nat)
  {
    Mask(a, n) == Mask(b, n)
  }

  /** Lexicographic order on octet strings of equal length. */
  predicate LexLess(x: seq<Byte>, y: seq<Byte>)
    requires |x| == |y|
  {
    |x| > 0 && (x[0] < y[0] || (x[0] == y[0] && LexLess(x[1..], y[1..])))
  }

  /** `<` on addresses. */
  predicate Less(a: Address, b: Address)
  {
    LexLess(a.bytes, b.bytes)
  }

  // ---------------------------------------------------------------------
  // Bits and masks

  /** Clearing the `m` lowest bits clears exactly those. */
  lemma {:induction false} ShrClearLow(x: nat, m: nat, n: nat)
    ensures Shr(ClearLow(x, m), n) % 2 == (if n < m then 0 else Shr(x, n) % 2)
  {
    if m > 0 && n > 0 {
      var c := ClearLow(x / 2, m - 1);
      assert (2 * c) / 2 == c;
      ShrClearLow(x / 2, m - 1, n - 1);
    }
  }

  /** The zero octet has no bit set. */
  lemma {:induction false} ShrZero(n: nat)
    ensures Shr(0, n) == 0
  {
    if n > 0 {
      ShrZero(n - 1);
    }
  }

  /** Two values below 2^n with the same `n` lowest bits are equal. */
  lemma {:induction false} LowBitsDetermine(x: nat, y: nat, n: nat)
    requires Shr(x, n) == 0 && Shr(y, n) == 0
    requires forall i | 0 <= i < n :: Shr(x, i) % 2 == Shr(y, i) % 2
    ensures x == y
  {
    if n > 0 {
      assert Shr(x, 0) % 2 == Shr(y, 0) % 2;
      forall i | 0 <= i < n - 1
        ensures Shr(x / 2, i) % 2 == Shr(y / 2, i) % 2
      {
        assert Shr(x, i + 1) % 2 == Shr(y, i + 1) % 2;
      }
      LowBitsDetermine(x / 2, y / 2, n - 1);
    }
  }

  /** An octet has no bits above its eighth. */
  lemma OctetShr8(b: Byte)
    ensures Shr(b as nat, 8) == 0
  {
    var x0 := b as nat;
    var x1, x2, x3, x4 := x0 / 2, x0 / 4, x0 / 8, x0 / 16;
    var x5, x6, x7, x8 := x0 / 32, x0 / 64, x0 / 128, x0 / 256;
    assert x1 / 2 == x2 && x2 / 2 == x3 && x3 / 2 == x4 && x4 / 2 == x5;
    assert x5 / 2 == x6 && x6 / 2 == x7 && x7 / 2 == x8 && x8 == 0;
    assert Shr(x0, 8) == Shr(x1, 7) == Shr(x2, 6) == Shr(x3, 5) == Shr(x4, 4);
    assert Shr(x4, 4) == Shr(x5, 3) == Shr(x6, 2) == Shr(x7, 1) == Shr(x8, 0);
  }

  lemma OctetMaskBit(b: Byte, k: nat, j: nat)
    requires k <= 8 && j < 8
    ensures OctetBit(HighBits(b, k), j) == (j < k && OctetBit(b, j))
  {
    ShrClearLow(b as nat, 8 - k, 7 - j);
  }

  lemma OctetBitsDetermine(b: Byte, c: Byte)
    requires forall j | 0 <= j < 8 :: OctetBit(b, j) == OctetBit(c, j)
    ensures b == c
  {
    var x, y := b as nat, c as nat;
    forall i | 0 <= i < 8
      ensures Shr(x, i) % 2 == Shr(y, i) % 2
    {
      assert OctetBit(b, 7 - i) == OctetBit(c, 7 - i);
    }
    OctetShr8(b);
    OctetShr8(c);
    LowBitsDetermine(x, y, 8);
  }

  /** After `mask(n)` exactly the first `n` bits survive. */
  lemma MaskBit(a: Address, n: nat, i: nat)
    requires i < 128
    ensures Bit(Mask(a, n), i) == (i < n && Bit(a, i))
  {
    var k := i / 8;
    if 8 * (k + 1) <= n {
    } else if n <= 8 * k {
      assert Mask(a, n).bytes[k] == 0;
    } else {
      OctetMaskBit(a.bytes[k], n - 8 * k, i % 8);
    }
  }

  /** Two addresses with the same 128 bits are the same address. */
  lemma BitsDetermine(a: Address, b: Address)
    requires forall i | 0 <= i < 128 :: Bit(a, i) == Bit(b, i)
    ensures a == b
  {
    forall k | 0 <= k < 16
      ensures a.bytes[k] == b.bytes[k]
    {
      forall j | 0 <= j < 8
        ensures OctetBit(a.bytes[k], j) == OctetBit(b.bytes[k], j)
      {
        assert Bit(a, 8 * k + j) == Bit(b, 8 * k + j);
        assert (8 * k + j) / 8 == k && (8 * k + j) % 8 == j;
      }
      OctetBitsDetermine(a.bytes[k], b.bytes[k]);
    }
  }

  /** An address is masked to `n` bits exactly when its bits from `n` on
      are all zero. */
  lemma MaskedIff(a: Address, n: nat)
    ensures Mask(a, n) == a <==> forall i | n <= i < 128 :: !Bit(a, i)
  {
    if Mask(a, n) == a {
      forall i | n <= i < 128
        ensures !Bit(a, i)
      {
        MaskBit(a, n, i);
      }
    }
    if forall i | n <= i < 128 :: !Bit(a, i) {
      forall i | 0 <= i < 128
        ensures Bit(Mask(a, n), i) == Bit(a, i)
      {
        MaskBit(a, n, i);
      }
      BitsDetermine(Mask(a, n), a);
    }
  }

  /** Masking twice to the same length changes nothing more. */
  lemma MaskIdempotent(a: Address, n: nat)
    ensures Mask(Mask(a, n), n) == Mask(a, n)
  {
    forall i | n <= i < 128
      ensures !Bit(Mask(a, n), i)
    {
      MaskBit(a, n, i);
    }
    MaskedIff(Mask(a, n), n);
  }

  /** `compare(other, n)` holds exactly when the first `n` bits agree. */
  lemma CompareBits(a: Address, b: Address, n: nat)
    ensures Compare(a, b, n) <==> forall i | 0 <= i < n && i < 128 :: Bit(a, i) == Bit(b, i)
  {
    if Compare(a, b, n) {
      forall i | 0 <= i < n && i < 128
        ensures Bit(a, i) == Bit(b, i)
      {
        MaskBit(a, n, i);
        MaskBit(b, n, i);
      }
    }
    if forall i | 0 <= i < n && i < 128 :: Bit(a, i) == Bit(b, i) {
      forall i | 0 <= i < 128
        ensures Bit(Mask(a, n), i) == Bit(Mask(b, n), i)
      {
        MaskBit(a, n, i);
        MaskBit(b, n, i);
      }
      BitsDetermine(Mask(a, n), Mask(b, n));
    }
  }

  /** A mask that keeps the 96 bits of the IPv4-mapped prefix keeps the
      address family. */
  lemma MaskKeepsFamily(a: Address, n: nat)
    requires n >= 96
    ensures IsV4(Mask(a, n)) <==> IsV4(a)
  {
    var m := Mask(a, n);
    forall k | 0 <= k < 12
      ensures m.bytes[k] == a.bytes[k]
    {
      assert 8 * (k + 1) <= n;
    }
    assert m.bytes[..12] == a.bytes[..12];
  }

  /** A mask shorter than the IPv4-mapped prefix never yields a v4 address. */
  lemma ShortMaskIsNotV4(a: Address, n: nat)
    requires n < 96
    ensures !IsV4(Mask(a, n))
  {
    var m := Mask(a, n);
    var b := m.bytes[11];
    if n <= 88 {
      assert b == 0;
    } else {
      assert b == HighBits(a.bytes[11], n - 88);
      OctetMaskBit(a.bytes[11], n - 88, 7);
    }
    assert !OctetBit(b, 7);
    assert m.bytes[..12][11] == b;
  }

  // ---------------------------------------------------------------------
  // The order `<`

  lemma {:induction false} LexLessIrreflexive(x: seq<Byte>)
    ensures !LexLess(x, x)
  {
    if |x| > 0 {
      LexLessIrreflexive(x[1..]);
    }
  }

  lemma {:induction false} LexLessTransitive(x: seq<Byte>, y: seq<Byte>, z: seq<Byte>)
    requires |x| == |y| == |z|
    requires LexLess(x, y) && LexLess(y, z)
    ensures LexLess(x, z)
  {
    if x[0] == y[0] && y[0] == z[0] {
      LexLessTransitive(x[1..], y[1..], z[1..]);
    }
  }

  lemma {:induction false} LexLessTotal(x: seq<Byte>, y: seq<Byte>)
    requires |x| == |y|
    ensures LexLess(x, y) || x == y || LexLess(y, x)
  {
    if |x| > 0 && x[0] == y[0] {
      LexLessTotal(x[1..], y[1..]);
      if x[1..] == y[1..] {
        assert x == [x[0]] + x[1..] && y == [y[0]] + y[1..];
      }
    }
  }

  /** `<` on addresses is a strict total order. */
  lemma LessIsStrictTotalOrder(a: Address, b: Address, c: Address)
    ensures !Less(a, a)
    ensures Less(a, b) && Less(b, c) ==> Less(a, c)
    ensures Less(a, b) || a == b || Less(b, a)
  {
    LexLessIrreflexive(a.bytes);
    if Less(a, b) && Less(b, c) {
      LexLessTransitive(a.bytes, b.bytes, c.bytes);
    }
    LexLessTotal(a.bytes, b.bytes);
  }
}
