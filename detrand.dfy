/*
 * `detrand` (decompose.c.cs): a deterministic pseudo-random bit for a point,
 * used by the Random turn policy.
 *
 * C# evaluates `(uint)0x04b3e375 * x` in `long` (a `uint` times an `int`),
 * XORs the sign-extended `y` into it, multiplies by 0x05a8ef93 in unchecked
 * `long` arithmetic and keeps the low 32 bits with the `(uint)` cast. The
 * 64-bit steps are written out on `bv64`: a product of bit-vectors wraps as
 * the unchecked product does. The four bytes of the result index a table
 * of 0/1 entries and the entries are XORed together.
 */
module Detrand {
  import opened Auxiliary

  /** A table entry: a byte that is 0 or 1. */
  type Bit = b: bv8 | b <= 1

  /** `detrand_t`: the constant term of the inverse in GF(2^8), 256 entries. */
  const Table: seq<Bit> := [
    0, 1, 1, 0, 1, 0, 1, 1, 0, 1, 1, 0, 0, 1, 1, 1, 0, 0, 0, 1, 1, 1, 0, 1,
    0, 1, 1, 0, 1, 0, 0, 0, 0, 0, 0, 1, 1, 1, 0, 1, 1, 0, 0, 1, 0, 0, 0, 0,
    0, 1, 0, 0, 1, 1, 0, 0, 0, 1, 0, 1, 1, 1, 1, 1, 1, 0, 1, 1, 1, 1, 1, 1,
    1, 0, 1, 1, 0, 1, 1, 1, 1, 0, 1, 0, 0, 0, 1, 1, 0, 0, 0, 0, 1, 0, 1, 1,
    0, 0, 1, 1, 1, 0, 0, 1, 0, 1, 1, 1, 1, 1, 1, 1, 1, 1, 1, 1, 0, 1, 0, 0,
    0, 0, 0, 0, 1, 0, 1, 0, 1, 0, 1, 0, 0, 1, 0, 0, 1, 0, 1, 1, 1, 0, 1, 0,
    0, 0, 0, 1, 0, 0, 0, 0, 0, 0, 1, 0, 1, 0, 1, 0, 1, 0, 0, 1, 1, 0, 1, 0,
    0, 0, 0, 0, 0, 1, 0, 0, 0, 0, 1, 1, 1, 1, 0, 1, 1, 0, 0, 1, 1, 0, 0, 1,
    1, 0, 1, 1, 0, 0, 0, 1, 1, 1, 1, 0, 1, 0, 0, 0, 0, 1, 0, 1, 1, 1, 0, 0,
    0, 1, 0, 1, 1, 0, 0, 1, 1, 1, 0, 1, 0, 0, 1, 1, 0, 0, 1, 1, 1, 0, 0, 1,
    1, 1, 0, 0, 0, 0, 1, 0, 1, 0, 1, 0, 1, 0, 1, 0]

  /** The two's-complement bits of a `long` value (or of an `int` sign-extended to `long`). */
  function LongBits(v: int): bv64
    requires IsInt64(v)
  {
    (v % 0x1_0000_0000_0000_0000) as bv64
  }

  /** The XOR of the table entries the four bytes of z select. */
  function Lookup(z: bv32): (r: int)
    ensures r == 0 || r == 1
  {
    var b := Table[(z & 0xff) as int] ^ Table[((z >> 8) & 0xff) as int]
           ^ Table[((z >> 16) & 0xff) as int] ^ Table[((z >> 24) & 0xff) as int];
    b as int
  }

  /** `detrand(x, y)`: a bit, 0 or 1, determined by the point. */
  function Detrand(x: int, y: int): (r: int)
    requires IsInt32(x) && IsInt32(y)
    ensures r == 0 || r == 1
  {
    var z := (LongBits(0x04b3e375 * x) ^ LongBits(y)) * 0x05a8ef93;
    Lookup((z & 0xFFFF_FFFF) as bv32)
  }
}
