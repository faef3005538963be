/** Little-endian packing of fixed-width integers, as done by Python's
    `struct.pack` with the `<` (standard size, no padding) prefix.
 */
module Bytes {

  /** One octet of the capture stream. */
  type Byte = b: int | 0 <= b < 256

  /** Range of the `B` format code. */
  predicate IsU8(x: int) { 0 <= x < 0x100 }

  /** Range of the `b` format code. */
  predicate IsI8(x: int) { -0x80 <= x < 0x80 }

  /** Range of the `H` format code. */
  predicate IsU16(x: int) { 0 <= x < 0x1_0000 }

  /** Range of the `I` format code. */
  predicate IsU32(x: int) { 0 <= x < 0x1_0000_0000 }

  /** `pack('<H', x)`. */
  function LE16(x: int): (r: seq<Byte>)
    requires IsU16(x)
    ensures |r| == 2
  {
    [x % 0x100, x / 0x100]
  }

  /** Reads back a little-endian 16-bit field. */
  function FromLE16(s: seq<Byte>): (x: int)
    requires |s| == 2
    ensures IsU16(x)
  {
    s[0] as int + 0x100 * s[1] as int
  }

  /** `pack('<I', x)`. */
  function LE32(x: int): (r: seq<Byte>)
    requires IsU32(x)
    ensures |r| == 4
  {
    LE16(x % 0x1_0000) + LE16(x / 0x1_0000)
  }

  /** Reads back a little-endian 32-bit field. */
  function FromLE32(s: seq<Byte>): (x: int)
    requires |s| == 4
    ensures IsU32(x)
  {
    FromLE16(s[..2]) + 0x1_0000 * FromLE16(s[2..])
  }

  /** `pack('<b', x)`: the two's-complement octet of a signed byte. */
  function I8(x: int): (b: Byte)
    requires IsI8(x)
    ensures FromI8(b) == x
    ensures x >= 0 ==> b == x
  {
    if x < 0 then x + 0x100 else x
  }

  /** Reads an octet back as a signed byte. */
  function FromI8(b: Byte): (x: int)
    ensures IsI8(x)
  {
    if b < 0x80 then b else b - 0x100
  }

  lemma LE16RoundTrip(x: int)
    requires IsU16(x)
    ensures FromLE16(LE16(x)) == x
  {
  }

  lemma FromLE16RoundTrip(s: seq<Byte>)
    requires |s| == 2
    ensures LE16(FromLE16(s)) == s
  {
  }

  lemma LE32RoundTrip(x: int)
    requires IsU32(x)
    ensures FromLE32(LE32(x)) == x
  {
    var lo, hi := x % 0x1_0000, x / 0x1_0000;
    assert LE32(x)[..2] == LE16(lo);
    assert LE32(x)[2..] == LE16(hi);
    LE16RoundTrip(lo);
    LE16RoundTrip(hi);
  }

  lemma FromLE32RoundTrip(s: seq<Byte>)
    requires |s| == 4
    ensures LE32(FromLE32(s)) == s
  {
    var lo, hi := FromLE16(s[..2]), FromLE16(s[2..]);
    var x := lo + 0x1_0000 * hi;
    assert x % 0x1_0000 == lo && x / 0x1_0000 == hi;
    FromLE16RoundTrip(s[..2]);
    FromLE16RoundTrip(s[2..]);
    assert s == s[..2] + s[2..];
  }

  /** Two in-range values pack to the same four octets only if they are equal. */
  lemma LE32Injective(x: int, y: int)
    requires IsU32(x) && IsU32(y)
    ensures LE32(x) == LE32(y) <==> x == y
  {
    if LE32(x) == LE32(y) {
      LE32RoundTrip(x);
      LE32RoundTrip(y);
    }
  }

  /** Concatenation regroups freely. */
  lemma AppendAssoc<T>(a: seq<T>, b: seq<T>, c: seq<T>)
    ensures (a + b) + c == a + (b + c)
  {
  }
}
