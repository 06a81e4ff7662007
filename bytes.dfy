/** Octets, big-endian integer reads and the unsigned 64-bit `count`
    arithmetic that every layer of the MRT decoder is built from.

    A read never consumes anything by itself: like the source's parser
    combinators applied to `raw`, it looks at the octets at a position and
    either fails (too few octets left) or yields a value.  The caller then
    advances its cursor, which is how the source's re-slicing of `raw` is
    modelled. */
module Bytes {

  /** An octet. */
  newtype Byte = x: int | 0 <= x < 0x100

  /** 2^64: the modulus of the source's `count` (a `uint64_t`). */
  const CountModulus: int := 0x1_0000_0000_0000_0000

  datatype Option<+T> = None | Some(value: T)

  /** `a - b` on two `count` values: wraps around instead of going negative. */
  function CountSub(a: nat, b: nat): (r: nat)
    requires a < CountModulus && b < CountModulus
    ensures r < CountModulus
    ensures b <= a ==> r == a - b
    ensures a < b ==> r == a - b + CountModulus
  {
    (a - b) % CountModulus
  }

  /** A value below 2^64 is its own `count`. */
  lemma SmallCount(x: int)
    requires 0 <= x < CountModulus
    ensures x % CountModulus == x
  {
  }

  /** The `byte` parser. */
  function U8(buf: seq<Byte>, pos: nat): (r: Option<nat>)
    ensures r.Some? <==> pos + 1 <= |buf|
    ensures r.Some? ==> r.value < 0x100
  {
    if pos + 1 <= |buf| then Some(buf[pos] as nat) else None
  }

  /** The `b16be` parser: a big-endian 16-bit value. */
  function U16(buf: seq<Byte>, pos: nat): (r: Option<nat>)
    ensures r.Some? <==> pos + 2 <= |buf|
    ensures r.Some? ==> r.value < 0x1_0000
  {
    if pos + 2 <= |buf| then Some(buf[pos] as nat * 0x100 + buf[pos + 1] as nat) else None
  }

  /** The `b32be` parser: a big-endian 32-bit value. */
  function U32(buf: seq<Byte>, pos: nat): (r: Option<nat>)
    ensures r.Some? <==> pos + 4 <= |buf|
    ensures r.Some? ==> r.value < 0x1_0000_0000
  {
    if pos + 4 <= |buf| then
      Some(buf[pos] as nat * 0x100_0000 + buf[pos + 1] as nat * 0x1_0000 + buf[pos + 2] as nat * 0x100 + buf[pos + 3] as nat)
    else None
  }

  /** The `bytes<n>` parser: `n` octets as they are. */
  function Octets(buf: seq<Byte>, pos: nat, n: nat): (r: Option<seq<Byte>>)
    ensures r.Some? <==> pos + n <= |buf|
    ensures r.Some? ==> |r.value| == n
  {
    if pos + n <= |buf| then Some(buf[pos..pos + n]) else None
  }

  /** Value of a whole octet string read most significant octet first. */
  function BigEndian(s: seq<Byte>): nat
  {
    if s == [] then 0 else BigEndian(s[..|s| - 1]) * 0x100 + s[|s| - 1] as nat
  }

  /** 256^n: one more than the largest value of `n` octets. */
  function Pow256(n: nat): (p: nat)
    ensures p > 0
  {
    if n == 0 then 1 else 0x100 * Pow256(n - 1)
  }

  /** `n` octets hold a value below 256^n. */
  lemma {:induction false} BigEndianBound(s: seq<Byte>)
    ensures BigEndian(s) < Pow256(|s|)
  {
    if s != [] {
      var init := s[..|s| - 1];
      BigEndianBound(init);
      assert BigEndian(init) + 1 <= Pow256(|init|);
      assert (BigEndian(init) + 1) * 0x100 <= Pow256(|init|) * 0x100;
    }
  }

  /** `n` zero octets. */
  function Zeros(n: nat): (z: seq<Byte>)
    ensures |z| == n
    ensures forall i | 0 <= i < n :: z[i] == 0
  {
    seq(n, _ => 0)
  }

  /** The wire form of a 16-bit value. */
  function Enc16(x: nat): (s: seq<Byte>)
    requires x < 0x1_0000
    ensures |s| == 2
  {
    [(x / 0x100) as Byte, (x % 0x100) as Byte]
  }

  /** The wire form of a 32-bit value. */
  function Enc32(x: nat): (s: seq<Byte>)
    requires x < 0x1_0000_0000
    ensures |s| == 4
  {
    Enc16(x / 0x1_0000) + Enc16(x % 0x1_0000)
  }

  lemma ByteRoundTrip(v: int)
    requires 0 <= v < 0x100
    ensures (v as Byte) as nat == v
  {
  }

  /** Reading a 16-bit value back from its wire form gives the value. */
  lemma U16RoundTrip(buf: seq<Byte>, pos: nat, x: nat)
    requires x < 0x1_0000 && pos + 2 <= |buf| && buf[pos..pos + 2] == Enc16(x)
    ensures U16(buf, pos) == Some(x)
  {
    assert buf[pos] == Enc16(x)[0] && buf[pos + 1] == Enc16(x)[1];
    ByteRoundTrip(x / 0x100);
    ByteRoundTrip(x % 0x100);
  }

  /** Reading a 32-bit value back from its wire form gives the value. */
  lemma U32RoundTrip(buf: seq<Byte>, pos: nat, x: nat)
    requires x < 0x1_0000_0000 && pos + 4 <= |buf| && buf[pos..pos + 4] == Enc32(x)
    ensures U32(buf, pos) == Some(x)
  {
    assert buf[pos..pos + 2] == buf[pos..pos + 4][..2] == Enc16(x / 0x1_0000);
    assert buf[pos + 2..pos + 4] == buf[pos..pos + 4][2..] == Enc16(x % 0x1_0000);
    U16RoundTrip(buf, pos, x / 0x1_0000);
    U16RoundTrip(buf, pos + 2, x % 0x1_0000);
  }

  /** A slice holding `a + b` holds `a` and then `b`. */
  lemma SplitSlice(buf: seq<Byte>, pos: nat, a: seq<Byte>, b: seq<Byte>)
    requires pos + |a| + |b| <= |buf| && buf[pos..pos + |a| + |b|] == a + b
    ensures buf[pos..pos + |a|] == a && buf[pos + |a|..pos + |a| + |b|] == b
  {
    assert buf[pos..pos + |a|] == buf[pos..pos + |a| + |b|][..|a|];
    assert buf[pos + |a|..pos + |a| + |b|] == buf[pos..pos + |a| + |b|][|a|..];
  }

  /** `U8` of an encoded octet. */
  lemma U8RoundTrip(buf: seq<Byte>, pos: nat, x: nat)
    requires x < 0x100 && pos + 1 <= |buf| && buf[pos] == x as Byte
    ensures U8(buf, pos) == Some(x)
  {
    ByteRoundTrip(x);
  }
}
