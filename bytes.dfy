/** Bytes and the little-endian layout that `BitConverter` produces on the
    little-endian machines the archive format is written on. */
module Bytes {

  type Byte = x: int | 0 <= x < 0x100

  function Pow256(n: nat): (p: nat)
    ensures p >= 1
  {
    if n == 0 then 1 else 0x100 * Pow256(n - 1)
  }

  /** The `size` little-endian bytes of `u` (lowest byte first), reduced modulo 256^size. */
  function LittleEndian(u: nat, size: nat): (bs: seq<Byte>)
    ensures |bs| == size
  {
    if size == 0 then [] else [u % 0x100] + LittleEndian(u / 0x100, size - 1)
  }

  /** The unsigned number whose little-endian bytes are `bs`. */
  function FromLittleEndian(bs: seq<Byte>): nat
  {
    if bs == [] then 0 else bs[0] + 0x100 * FromLittleEndian(bs[1..])
  }

  lemma {:induction false} FromLittleEndianBound(bs: seq<Byte>)
    ensures FromLittleEndian(bs) < Pow256(|bs|)
  {
    if bs != [] {
      FromLittleEndianBound(bs[1..]);
    }
  }

  /** Decoding the little-endian bytes of an in-range number gives the number back. */
  lemma {:induction false} LittleEndianRoundTrip(u: nat, size: nat)
    requires u < Pow256(size)
    ensures FromLittleEndian(LittleEndian(u, size)) == u
  {
    if size > 0 {
      assert u / 0x100 < Pow256(size - 1);
      LittleEndianRoundTrip(u / 0x100, size - 1);
      assert LittleEndian(u, size)[1..] == LittleEndian(u / 0x100, size - 1);
    }
  }

  /** Every byte sequence is the little-endian layout of the number it denotes. */
  lemma {:induction false} BytesRoundTrip(bs: seq<Byte>)
    ensures LittleEndian(FromLittleEndian(bs), |bs|) == bs
  {
    if bs != [] {
      DivModByte(bs[0], FromLittleEndian(bs[1..]));
      BytesRoundTrip(bs[1..]);
    }
  }

  lemma DivModByte(low: Byte, high: nat)
    ensures (low + 0x100 * high) % 0x100 == low
    ensures (low + 0x100 * high) / 0x100 == high
  {
  }

  function Zeros(n: nat): (z: seq<Byte>)
    ensures |z| == n && forall i :: 0 <= i < n ==> z[i] == 0
  {
    seq(n, _ => 0)
  }

  function Min(a: int, b: int): int { if a <= b then a else b }

  /** Regrouping concatenated bytes, stated once so that proofs can cite it by name. */
  lemma Associative(a: seq<Byte>, b: seq<Byte>, c: seq<Byte>)
    ensures (a + b) + c == a + (b + c)
  {
  }
}
