/**
 * Network byte order for the fixed-width integers of the DNS wire format:
 * the `to_be_bytes` / `from_be_bytes` conversions that every codec of the
 * server uses. Bytes are `bv8`, `u16` is `bv16` and `u32` is `bv32`, so the
 * shifts, masks and truncating `as u8` casts of the Rust code are bit-exact.
 */
module ByteOrder {

  /** The low eight bits of a 16-bit value: Rust's truncating `x as u8`. */
  function Low8(x: bv16): (b: bv8)
    ensures b as bv16 == x & 0xFF
  {
    (x & 0xFF) as bv8
  }

  /** `u16::to_be_bytes`: most significant byte first. */
  function Be16(x: bv16): (r: seq<bv8>)
    ensures |r| == 2
    ensures r[0] as bv16 == x >> 8 && r[1] as bv16 == x & 0xFF
  {
    [(x >> 8) as bv8, Low8(x)]
  }

  /** `u16::from_be_bytes([hi, lo])`. */
  function FromBe16(hi: bv8, lo: bv8): (x: bv16)
    ensures x >> 8 == hi as bv16 && x & 0xFF == lo as bv16
  {
    (hi as bv16 << 8) | lo as bv16
  }

  /** `u32::to_be_bytes`: most significant byte first. */
  function Be32(x: bv32): (r: seq<bv8>)
    ensures |r| == 4
    ensures r[0] as bv32 == x >> 24 && r[1] as bv32 == (x >> 16) & 0xFF
    ensures r[2] as bv32 == (x >> 8) & 0xFF && r[3] as bv32 == x & 0xFF
  {
    [(x >> 24) as bv8, ((x >> 16) & 0xFF) as bv8, ((x >> 8) & 0xFF) as bv8, (x & 0xFF) as bv8]
  }

  /** `u32::from_be_bytes`, the inverse of `Be32` (the server never reads a TTL, but it states what `Be32` writes). */
  function FromBe32(b0: bv8, b1: bv8, b2: bv8, b3: bv8): (x: bv32)
    ensures x >> 24 == b0 as bv32 && (x >> 16) & 0xFF == b1 as bv32
    ensures (x >> 8) & 0xFF == b2 as bv32 && x & 0xFF == b3 as bv32
  {
    (b0 as bv32 << 24) | (b1 as bv32 << 16) | (b2 as bv32 << 8) | b3 as bv32
  }

  lemma Be16RoundTrip(x: bv16)
    ensures FromBe16(Be16(x)[0], Be16(x)[1]) == x
  {
  }

  lemma FromBe16RoundTrip(hi: bv8, lo: bv8)
    ensures Be16(FromBe16(hi, lo)) == [hi, lo]
  {
  }

  lemma Be32RoundTrip(x: bv32)
    ensures FromBe32(Be32(x)[0], Be32(x)[1], Be32(x)[2], Be32(x)[3]) == x
  {
  }

  /** The big-endian encodings of zero are all-zero bytes. */
  lemma ZeroEncodings()
    ensures Be16(0) == [0, 0] && Be32(0) == [0, 0, 0, 0]
  {
  }

  /** One, as a big-endian 16-bit field. */
  lemma OneEncoding()
    ensures Be16(1) == [0, 1]
  {
  }
}
