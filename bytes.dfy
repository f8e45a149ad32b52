/**
 * Fixed-width integer <-> byte helpers of uuidv47.h: the 64-bit little-endian
 * reader used by SipHash and the 48-bit big-endian reader and writer used for
 * the UUIDv7 timestamp field.
 */
module Bytes {
  /** 2^48 - 1: the UUIDv7 timestamp field is 48 bits wide. */
  const Mask48: bv64 := 0x0000_FFFF_FFFF_FFFF

  /** The low 8 bits of a word, as the C cast `(uint8_t)` keeps them. */
  function Low8(v: bv64): bv8
  {
    (v & 0xFF) as bv8
  }

  /** `rd64le`: eight bytes as a little-endian 64-bit word. */
  function Rd64le(x: seq<bv8>): bv64
    requires |x| >= 8
  {
    (x[0] as bv64) | ((x[1] as bv64) << 8) | ((x[2] as bv64) << 16) | ((x[3] as bv64) << 24) |
    ((x[4] as bv64) << 32) | ((x[5] as bv64) << 40) | ((x[6] as bv64) << 48) | ((x[7] as bv64) << 56)
  }

  /** The eight little-endian bytes of a word: the inverse of `Rd64le`. */
  function Le64(v: bv64): (r: seq<bv8>)
    ensures |r| == 8
  {
    [Low8(v), Low8(v >> 8), Low8(v >> 16), Low8(v >> 24),
     Low8(v >> 32), Low8(v >> 40), Low8(v >> 48), Low8(v >> 56)]
  }

  lemma Rd64leOfLe64(v: bv64)
    ensures Rd64le(Le64(v)) == v
  {
  }

  lemma Le64OfRd64le(x: seq<bv8>)
    requires |x| >= 8
    ensures Le64(Rd64le(x)) == x[..8]
  {
  }

  /** `rd48be`: six bytes as a big-endian 48-bit number. */
  function Rd48be(x: seq<bv8>): (r: bv64)
    requires |x| >= 6
    ensures r & Mask48 == r
  {
    ((x[0] as bv64) << 40) | ((x[1] as bv64) << 32) | ((x[2] as bv64) << 24) |
    ((x[3] as bv64) << 16) | ((x[4] as bv64) << 8) | (x[5] as bv64)
  }

  /** The six bytes `wr48be` stores: the low 48 bits of `v`, most significant first. */
  function Be48(v: bv64): (r: seq<bv8>)
    ensures |r| == 6
  {
    [Low8(v >> 40), Low8(v >> 32), Low8(v >> 24), Low8(v >> 16), Low8(v >> 8), Low8(v)]
  }

  /** Reading back what was written recovers the value modulo 2^48. */
  lemma Rd48beOfBe48(v: bv64)
    ensures Rd48be(Be48(v)) == v & Mask48
  {
  }

  /** Writing what was read reproduces the six bytes. */
  lemma Be48OfRd48be(x: seq<bv8>)
    requires |x| >= 6
    ensures Be48(Rd48be(x)) == x[..6]
  {
  }

  /** `wr48be`: stores `Be48(v)` in `dst[0..6]` and touches nothing else. */
  method Wr48be(dst: array<bv8>, v: bv64)
    requires dst.Length >= 6
    modifies dst
    ensures dst[..6] == Be48(v)
    ensures dst[6..] == old(dst[6..])
  {
    dst[0] := Low8(v >> 40);
    dst[1] := Low8(v >> 32);
    dst[2] := Low8(v >> 24);
    dst[3] := Low8(v >> 16);
    dst[4] := Low8(v >> 8);
    dst[5] := Low8(v);
  }
}
