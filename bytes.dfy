/**
 * Byte-level helpers shared by the receive and transmit layouts: the byte
 * type, little-endian unsigned values of any width (struct format `L` is
 * the four-byte case) and the signed 16-bit reading of struct format `h`.
 */
module Bytes {

  type byte = x: int | 0 <= x < 256

  /** One past the largest value struct format `L` accepts. */
  const U32_LIMIT: int := 0x1_0000_0000

  /** 256 to the power n: one past the largest n-byte unsigned value. */
  function Pow256(n: nat): (p: nat)
    ensures p >= 1
  {
    if n == 0 then 1 else 256 * Pow256(n - 1)
  }

  /** The unsigned number a byte sequence denotes, least significant byte first. */
  function LeValue(s: seq<byte>): (v: nat)
    ensures v < Pow256(|s|)
  {
    if s == [] then 0
    else
      var rest := LeValue(s[1..]);
      assert rest <= Pow256(|s| - 1) - 1;
      s[0] + 256 * rest
  }

  /** The n bytes, least significant first, that encode v. */
  function LeBytes(v: nat, n: nat): (s: seq<byte>)
    requires v < Pow256(n)
    ensures |s| == n
  {
    if n == 0 then [] else [v % 256] + LeBytes(v / 256, n - 1)
  }

  /** Encoding then decoding a value gives the value back. */
  lemma {:induction false} LeValueOfBytes(v: nat, n: nat)
    requires v < Pow256(n)
    ensures LeValue(LeBytes(v, n)) == v
  {
    if n > 0 {
      LeValueOfBytes(v / 256, n - 1);
      assert LeBytes(v, n)[1..] == LeBytes(v / 256, n - 1);
    }
  }

  /** Decoding then re-encoding bytes gives the bytes back. */
  lemma {:induction false} LeBytesOfValue(s: seq<byte>)
    ensures LeBytes(LeValue(s), |s|) == s
  {
    if s != [] {
      LeBytesOfValue(s[1..]);
      var v := LeValue(s);
      assert v % 256 == s[0] && v / 256 == LeValue(s[1..]);
    }
  }

  /**
   * Struct format `<h`: the two's-complement value of the 16-bit word
   * lo + 256 * hi, that is, the one value in [-32768, 32768) congruent to it
   * modulo 65536.
   */
  function Int16Le(lo: byte, hi: byte): (v: int)
    ensures -32768 <= v < 32768
    ensures v % 65536 == lo + 256 * hi
    ensures (v < 0) == (hi >= 128)
  {
    var u := lo + 256 * hi;
    if u >= 32768 then u - 65536 else u
  }

  /**
   * The integer part of v / 10, rounded toward zero: what numpy stores when a
   * float quotient is written into an int16 array.
   */
  function Trunc10(v: int): (q: int)
    ensures v >= 0 ==> 0 <= v - 10 * q < 10
    ensures v < 0 ==> -10 < v - 10 * q <= 0
  {
    if v >= 0 then v / 10 else -((-v) / 10)
  }

  /** Truncating a 16-bit sample by ten keeps it well inside the int16 range. */
  lemma Trunc10OfInt16(v: int)
    requires -32768 <= v < 32768
    ensures -3276 <= Trunc10(v) <= 3276
  {
  }
}
