/**
 * Byte-level vocabulary shared by the packet-protocol modules: the firmware's
 * `uint8_t` as an 8-bit bit-vector (so `^`, `&` and `<<` wrap exactly as the
 * truncating assignment to a `uint8_t` does), and an optional value.
 */
module Bytes {

  /** One wire byte (`uint8_t` in the firmware). */
  type byte = bv8

  /** The conventional Some/None datatype. */
  datatype Option<+T> = None | Some(value: T)

  /**
   * The byte whose unsigned value is `i`: the conversion `i as byte`, written
   * as counting up from 0 because the solver proves the value of the result
   * far more cheaply by induction than through the integer-to-bit-vector cast.
   */
  function ByteOf(i: int): (b: byte)
    requires 0 <= i < 256
    ensures b as int == i
    decreases i
  {
    if i == 0 then 0 else ByteOf(i - 1) + 1
  }

  /** A byte's unsigned value converts back to the same byte. */
  lemma ByteRoundTrip(b: byte)
    ensures (b as int) as byte == b
  {
  }

  /** Distinct bytes have distinct unsigned values. */
  lemma ByteValueInjective(a: byte, b: byte)
    requires a as int == b as int
    ensures a == b
  {
    ByteRoundTrip(a);
    ByteRoundTrip(b);
  }

  /** `ByteOf` inverts the unsigned value of a byte. */
  lemma ByteOfValue(b: byte)
    ensures ByteOf(b as int) == b
  {
    ByteValueInjective(ByteOf(b as int), b);
  }

  /** Shifting a byte below 128 left by one doubles its unsigned value. */
  lemma ByteDouble(b: byte)
    requires b < 128
    ensures (b << 1) as int == 2 * (b as int)
  {
  }

  /** A two-byte little-endian value splits back into its low and high byte. */
  lemma SplitLowHigh(low: int, high: int)
    requires 0 <= low < 256 && 0 <= high < 256
    ensures 0 <= low + 256 * high < 65536
    ensures (low + 256 * high) % 65536 == low + 256 * high
    ensures (low + 256 * high) % 256 == low
    ensures (low + 256 * high) / 256 == high
  {
  }

  /** A value already below the modulus is its own remainder. */
  lemma ModBelow(n: int, modulus: int)
    requires 0 <= n < modulus
    ensures n % modulus == n
  {
  }

  /** A sequence is the concatenation of its three slices at `i` and `j`. */
  lemma SplitThree<T>(s: seq<T>, i: int, j: int)
    requires 0 <= i <= j <= |s|
    ensures s == s[..i] + s[i..j] + s[j..]
  {
  }
}
