/** Machine words of the AArch64 loader: bytes, 32- and 64-bit unsigned words,
    64-bit wrap-around address arithmetic and little-endian encoding. */
module Words {

  const TWO_31: int := 0x8000_0000
  const TWO_32: int := 0x1_0000_0000
  const TWO_63: int := 0x8000_0000_0000_0000
  const TWO_64: int := 0x1_0000_0000_0000_0000

  type byte = x: int | 0 <= x < 256
  type u32 = x: int | 0 <= x < 0x1_0000_0000
  type u64 = x: int | 0 <= x < 0x1_0000_0000_0000_0000

  /** Address arithmetic on a 64-bit machine: the sum is taken modulo 2^64. */
  function Wrap64(x: int): (r: u64)
    ensures 0 <= x < TWO_64 ==> r == x
    ensures TWO_64 <= x < 2 * TWO_64 ==> r == x - TWO_64
    ensures -TWO_64 <= x < 0 ==> r == x + TWO_64
    ensures (x - r) % TWO_64 == 0
  {
    x % TWO_64
  }

  /** The two's-complement reading of a 64-bit word, as a signed compare sees it. */
  function Signed64(x: u64): (r: int)
    ensures -TWO_63 <= r < TWO_63
    ensures Wrap64(r) == x
    ensures r <= 0 <==> x == 0 || TWO_63 <= x
  {
    if x < TWO_63 then x else x - TWO_64
  }

  /** The two's-complement reading of a 32-bit word (a relative offset). */
  function SignExtend32(x: u32): (r: int)
    ensures -TWO_31 <= r < TWO_31
    ensures (x - r) % TWO_32 == 0
  {
    if x < TWO_31 then x else x - TWO_32
  }

  /** The low 32 bits of a 64-bit word. */
  function Low32(x: u64): (r: u32)
    ensures x < TWO_32 ==> r == x
    ensures (x - r) % TWO_32 == 0
  {
    x % TWO_32
  }

  function Pow256(n: nat): (r: nat)
    ensures r >= 1
  {
    if n == 0 then 1 else 256 * Pow256(n - 1)
  }

  lemma Pow256Widths()
    ensures Pow256(4) == TWO_32 && Pow256(8) == TWO_64
  {
  }

  /** The unsigned value of a little-endian byte string. */
  function DecodeLE(s: seq<byte>): (r: nat)
    ensures r < Pow256(|s|)
  {
    if s == [] then 0 else s[0] + 256 * DecodeLE(s[1..])
  }

  /** The n-byte little-endian encoding of v; decoding gives v back. */
  function EncodeLE(v: nat, n: nat): (s: seq<byte>)
    requires v < Pow256(n)
    ensures |s| == n
    ensures DecodeLE(s) == v
  {
    if n == 0 then [] else [v % 256] + EncodeLE(v / 256, n - 1)
  }

  /** The other half of the round trip: encoding a decoded string gives the string back. */
  lemma {:induction false} EncodeOfDecode(s: seq<byte>)
    ensures EncodeLE(DecodeLE(s), |s|) == s
  {
    if s != [] {
      var d := DecodeLE(s[1..]);
      assert (s[0] + 256 * d) % 256 == s[0];
      assert (s[0] + 256 * d) / 256 == d;
      EncodeOfDecode(s[1..]);
      assert s == [s[0]] + s[1..];
    }
  }
}
