/** Bytes and little-endian bit patterns. */
module Bytes {

  type Byte = b: int | 0 <= b < 256

  function Pow2(n: nat): (p: nat)
    ensures p > 0
  {
    if n == 0 then 1 else 2 * Pow2(n - 1)
  }

  function Pow256(n: nat): (p: nat)
    ensures p > 0
  {
    if n == 0 then 1 else 256 * Pow256(n - 1)
  }

  function ToLittleEndian(bits: nat, n: nat): (s: seq<Byte>)
    ensures |s| == n
  {
    if n == 0 then [] else [bits % 256] + ToLittleEndian(bits / 256, n - 1)
  }

  function FromLittleEndian(s: seq<Byte>): (bits: nat)
    ensures bits < Pow256(|s|)
  {
    if s == [] then 0 else s[0] + 256 * FromLittleEndian(s[1..])
  }

  lemma {:induction false} LittleEndianRoundTrip(bits: nat, n: nat)
    requires bits < Pow256(n)
    ensures FromLittleEndian(ToLittleEndian(bits, n)) == bits
  {
    if n > 0 {
      LittleEndianRoundTrip(bits / 256, n - 1);
      assert ToLittleEndian(bits, n)[1..] == ToLittleEndian(bits / 256, n - 1);
    }
  }

  /** The lowest byte decides the pattern modulo 256. */
  lemma {:induction false} LowByte(s: seq<Byte>)
    requires s != []
    ensures FromLittleEndian(s) % 256 == s[0]
  {
  }
}
