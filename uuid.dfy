/**
 * The UUID layout of RFC 9562 as uuidv47.h uses it, and the reversible
 * transform between a UUIDv7 and its UUIDv4-looking facade.
 *
 * The transform keeps the 74 random bits of the UUIDv7 in place (the low
 * nibble of byte 6, byte 7, the low six bits of byte 8 and bytes 9-15), hashes
 * them with SipHash-2-4 under the 128-bit key, and XORs the low 48 bits of the
 * hash into the 48-bit timestamp of bytes 0-5.  Because the hashed bits are
 * not touched, the same mask is recomputed from the facade, which makes the
 * transform its own inverse up to the version nibble.
 */
module Uuid47 {
  import opened Bytes
  import opened SipHash

  /** `uuid128_t`: sixteen bytes in network order. */
  type Uuid = s: seq<bv8> | |s| == 16 witness [0, 0, 0, 0, 0, 0, 0, 0, 0, 0, 0, 0, 0, 0, 0, 0]

  /** `uuidv47_key_t`: the 128-bit SipHash key as two 64-bit words. */
  datatype Key = Key(k0: bv64, k1: bv64)

  /** `uuid_version`: the high nibble of byte 6 (section 4.2 of RFC 9562). */
  function Version(u: Uuid): (r: bv8)
    ensures r < 16
  {
    (u[6] >> 4) & 0x0F
  }

  /** The variant bits `10` at the top of byte 8 (section 4.1 of RFC 9562). */
  predicate HasRfcVariant(u: Uuid)
  {
    u[8] & 0xC0 == 0x80
  }

  /** Two identifiers that agree on the 74 random bits. */
  predicate SameRandom(u: Uuid, w: Uuid)
  {
    u[6] & 0x0F == w[6] & 0x0F && u[7] == w[7] && u[8] & 0x3F == w[8] & 0x3F && u[9..] == w[9..]
  }

  /** A well-formed UUIDv7 and a well-formed facade. */
  predicate IsV7(u: Uuid)
  {
    Version(u) == 7 && HasRfcVariant(u)
  }

  predicate IsV4(u: Uuid)
  {
    Version(u) == 4 && HasRfcVariant(u)
  }

  /**
   * `set_version` on a value: the version nibble becomes `ver & 0x0F`.  The C
   * parameter is an `int`; only its low nibble matters, so the model takes
   * its low byte.
   */
  function WithVersion(u: Uuid, ver: bv8): (r: Uuid)
    ensures Version(r) == ver & 0x0F
    ensures r[6] & 0x0F == u[6] & 0x0F
    ensures forall i | 0 <= i < 16 && i != 6 :: r[i] == u[i]
  {
    u[6 := (u[6] & 0x0F) | ((ver & 0x0F) << 4)]
  }

  /** `set_variant_rfc4122` on a value: byte 8 becomes `10xxxxxx`. */
  function WithRfcVariant(u: Uuid): (r: Uuid)
    ensures HasRfcVariant(r)
    ensures r[8] & 0x3F == u[8] & 0x3F
    ensures forall i | 0 <= i < 16 && i != 8 :: r[i] == u[i]
  {
    u[8 := (u[8] & 0x3F) | 0x80]
  }

  /** `set_version`, writing through the pointer. */
  method SetVersion(u: array<bv8>, ver: bv8)
    requires u.Length == 16
    modifies u
    ensures u[..] == WithVersion(old(u[..]), ver)
  {
    u[6] := (u[6] & 0x0F) | ((ver & 0x0F) << 4);
  }

  /** `set_variant_rfc4122`, writing through the pointer. */
  method SetVariantRfc4122(u: array<bv8>)
    requires u.Length == 16
    modifies u
    ensures u[..] == WithRfcVariant(old(u[..]))
  {
    u[8] := (u[8] & 0x3F) | 0x80;
  }

  /** Byte 6 is determined by its version nibble and its low nibble. */
  lemma VersionByte(a: Uuid, b: Uuid)
    requires Version(a) == Version(b) && a[6] & 0x0F == b[6] & 0x0F
    ensures a[6] == b[6]
  {
  }

  /** Byte 8 is determined by its variant bits and its low six bits. */
  lemma VariantByte(a: Uuid, b: Uuid)
    requires HasRfcVariant(a) && HasRfcVariant(b) && a[8] & 0x3F == b[8] & 0x3F
    ensures a[8] == b[8]
  {
  }

  /** Sixteen bytes, cut into the timestamp field, bytes 6-8 and the tail. */
  lemma Pieces(a: Uuid)
    ensures a == a[..6] + [a[6], a[7], a[8]] + a[9..]
  {
  }

  /**
   * An RFC-variant identifier is determined by its timestamp field, its
   * version and its random bits: nothing else is stored in it.
   */
  lemma FieldsDetermine(a: Uuid, b: Uuid)
    requires a[..6] == b[..6] && Version(a) == Version(b)
    requires HasRfcVariant(a) && HasRfcVariant(b) && SameRandom(a, b)
    ensures a == b
  {
    VersionByte(a, b);
    VariantByte(a, b);
    Pieces(a);
    Pieces(b);
  }

  /** The 10-byte message `build_sip_input_from_v7` builds from the random bits. */
  function SipInput(u: Uuid): (r: seq<bv8>)
    ensures |r| == 10
  {
    [u[6] & 0x0F, u[7], u[8] & 0x3F] + u[9..]
  }

  /** The message is a faithful copy of the random bits: equal messages exactly for equal random bits. */
  lemma SipInputExactlyRandom(u: Uuid, w: Uuid)
    ensures SipInput(u) == SipInput(w) <==> SameRandom(u, w)
  {
    if SipInput(u) == SipInput(w) {
      assert SipInput(u)[0] == SipInput(w)[0];
      assert SipInput(u)[1] == SipInput(w)[1];
      assert SipInput(u)[2] == SipInput(w)[2];
      assert SipInput(u)[3..] == u[9..];
      assert SipInput(w)[3..] == w[9..];
    }
  }

  /** `build_sip_input_from_v7`: fills the 10-byte message buffer. */
  method BuildSipInputFromV7(u: Uuid, msg: array<bv8>)
    requires msg.Length == 10
    modifies msg
    ensures msg[..] == SipInput(u)
  {
    msg[0] := u[6] & 0x0F;
    msg[1] := u[7];
    msg[2] := u[8] & 0x3F;
    for i := 0 to 7
      invariant msg[..3] == SipInput(u)[..3]
      invariant msg[3..3 + i] == u[9..9 + i]
    {
      msg[3 + i] := u[9 + i];
    }
    assert msg[..] == msg[..3] + msg[3..10];
  }

  /** The 48-bit mask: the low 48 bits of SipHash-2-4 of the random bits. */
  function FacadeMask(u: Uuid, key: Key): (m: bv64)
    ensures m & Mask48 == m
  {
    SipHash24(SipInput(u), key.k0, key.k1) & Mask48
  }

  /** Identifiers with the same random bits get the same mask. */
  lemma FacadeMaskStable(u: Uuid, w: Uuid, key: Key)
    requires SameRandom(u, w)
    ensures FacadeMask(u, key) == FacadeMask(w, key)
  {
    SipInputExactlyRandom(u, w);
  }

  /** Bytes 0-5 replaced by the big-endian spelling of `ts`. */
  function WithTimestamp(u: Uuid, ts: bv64): (r: Uuid)
    ensures r[..6] == Be48(ts) && r[6..] == u[6..]
  {
    var r := Be48(ts) + u[6..];
    assert r[..6] == Be48(ts);
    r
  }

  /** Bytewise XOR of two byte strings of the same length. */
  function XorBytes(a: seq<bv8>, b: seq<bv8>): (r: seq<bv8>)
    requires |a| == |b|
    ensures |r| == |a| && forall i | 0 <= i < |a| :: r[i] == a[i] ^ b[i]
  {
    seq(|a|, i requires 0 <= i < |a| => a[i] ^ b[i])
  }

  /** XORing the same bytes twice cancels. */
  lemma XorBytesTwice(a: seq<bv8>, b: seq<bv8>)
    requires |a| == |b|
    ensures XorBytes(XorBytes(a, b), b) == a
  {
  }

  /** A 48-bit XOR is a bytewise XOR of the big-endian spellings. */
  lemma Be48Xor(x: seq<bv8>, m: bv64)
    requires |x| >= 6
    ensures Be48(Rd48be(x) ^ m) == XorBytes(x[..6], Be48(m))
  {
    Be48OfRd48be(x);
    Be48XorWords(Rd48be(x), m);
  }

  /**
   * The big-endian spelling distributes over XOR.  Each byte is its own
   * lemma and the six are joined by `SixBytesEqual`: stated as one formula
   * the bit-vector reasoning is far slower.
   */
  lemma Be48XorWords(y: bv64, m: bv64)
    ensures Be48(y ^ m) == XorBytes(Be48(y), Be48(m))
  {
    Be48XorByte0(y, m);
    Be48XorByte1(y, m);
    Be48XorByte2(y, m);
    Be48XorByte3(y, m);
    Be48XorByte4(y, m);
    Be48XorByte5(y, m);
    SixBytesEqual(Be48(y ^ m), XorBytes(Be48(y), Be48(m)));
  }

  lemma Be48XorByte0(y: bv64, m: bv64)
    ensures Be48(y ^ m)[0] == Be48(y)[0] ^ Be48(m)[0]
  {
  }

  lemma Be48XorByte1(y: bv64, m: bv64)
    ensures Be48(y ^ m)[1] == Be48(y)[1] ^ Be48(m)[1]
  {
  }

  lemma Be48XorByte2(y: bv64, m: bv64)
    ensures Be48(y ^ m)[2] == Be48(y)[2] ^ Be48(m)[2]
  {
  }

  lemma Be48XorByte3(y: bv64, m: bv64)
    ensures Be48(y ^ m)[3] == Be48(y)[3] ^ Be48(m)[3]
  {
  }

  lemma Be48XorByte4(y: bv64, m: bv64)
    ensures Be48(y ^ m)[4] == Be48(y)[4] ^ Be48(m)[4]
  {
  }

  lemma Be48XorByte5(y: bv64, m: bv64)
    ensures Be48(y ^ m)[5] == Be48(y)[5] ^ Be48(m)[5]
  {
  }

  lemma SixBytesEqual(a: seq<bv8>, b: seq<bv8>)
    requires |a| == 6 && |b| == 6
    requires a[0] == b[0] && a[1] == b[1] && a[2] == b[2] && a[3] == b[3] && a[4] == b[4] && a[5] == b[5]
    ensures a == b
  {
    assert forall i | 0 <= i < 6 :: a[i] == b[i];
  }

  /**
   * The common body of `uuidv47_encode_v4facade` and `uuidv47_decode_v4facade`
   * for a given mask: XOR the timestamp field with the mask, then set the
   * version and the variant.
   */
  function Transform(u: Uuid, mask: bv64, ver: bv8): (r: Uuid)
    ensures r[..6] == XorBytes(u[..6], Be48(mask))
    ensures Version(r) == ver & 0x0F && HasRfcVariant(r)
    ensures SameRandom(r, u)
  {
    var w := WithTimestamp(u, Rd48be(u) ^ mask);
    PrefixKept(w, ver);
    Be48Xor(u, mask);
    WithRfcVariant(WithVersion(w, ver))
  }

  /** Setting the version and the variant leaves bytes 0-5 alone. */
  lemma PrefixKept(w: Uuid, ver: bv8)
    ensures WithRfcVariant(WithVersion(w, ver))[..6] == w[..6]
  {
  }

  /**
   * Transforming twice with the same mask restores an identifier whose
   * version is the second one: the XOR cancels and nothing else is lost.
   */
  lemma TransformTwice(u: Uuid, mask: bv64, ver1: bv8, ver2: bv8)
    requires Version(u) == ver2 & 0x0F && HasRfcVariant(u)
    ensures Transform(Transform(u, mask, ver1), mask, ver2) == u
  {
    var t := Transform(u, mask, ver1);
    XorBytesTwice(u[..6], Be48(mask));
    FieldsDetermine(Transform(t, mask, ver2), u);
  }

  /** `uuidv47_encode_v4facade`. */
  function Encode(v7: Uuid, key: Key): (r: Uuid)
    ensures IsV4(r) && SameRandom(r, v7)
    ensures r[..6] == XorBytes(v7[..6], Be48(FacadeMask(v7, key)))
  {
    Transform(v7, FacadeMask(v7, key), 4)
  }

  /** `uuidv47_decode_v4facade`. */
  function Decode(v4: Uuid, key: Key): (r: Uuid)
    ensures IsV7(r) && SameRandom(r, v4)
    ensures r[..6] == XorBytes(v4[..6], Be48(FacadeMask(v4, key)))
  {
    Transform(v4, FacadeMask(v4, key), 7)
  }

  /** Bytes 0-5 of the result are `wr48be(rd48be(u) ^ mask)`, the mask being the keyed hash. */
  lemma TransformedTimestamp(u: Uuid, key: Key)
    ensures Encode(u, key)[..6] == Be48(Rd48be(u) ^ FacadeMask(u, key))
    ensures Decode(u, key)[..6] == Be48(Rd48be(u) ^ FacadeMask(u, key))
  {
    Be48Xor(u, FacadeMask(u, key));
  }

  /** The facade hashes the same message as the identifier it came from, and back. */
  lemma TransformKeepsSipInput(u: Uuid, key: Key)
    ensures SipInput(Encode(u, key)) == SipInput(u)
    ensures SipInput(Decode(u, key)) == SipInput(u)
  {
    SipInputExactlyRandom(Encode(u, key), u);
    SipInputExactlyRandom(Decode(u, key), u);
  }

  /** Decoding the facade of a UUIDv7 gives the UUIDv7 back. */
  lemma DecodeEncode(v7: Uuid, key: Key)
    requires IsV7(v7)
    ensures Decode(Encode(v7, key), key) == v7
  {
    var m := FacadeMask(v7, key);
    FacadeMaskStable(Encode(v7, key), v7, key);
    TransformTwice(v7, m, 4, 7);
  }

  /** Encoding the UUIDv7 behind a facade gives the facade back. */
  lemma EncodeDecode(v4: Uuid, key: Key)
    requires IsV4(v4)
    ensures Encode(Decode(v4, key), key) == v4
  {
    var m := FacadeMask(v4, key);
    FacadeMaskStable(Decode(v4, key), v4, key);
    TransformTwice(v4, m, 7, 4);
  }

  /** Copies the 16 bytes of an identifier into a fresh buffer, as `uuid128_t out = v7;` does. */
  method CopyOut(u: Uuid) returns (a: array<bv8>)
    ensures fresh(a) && a[..] == u
  {
    a := new bv8[16](i requires 0 <= i < 16 => u[i]);
  }

  /** Step 1 of both C functions: the 48-bit mask from the 10-byte message. */
  method ComputeMask(u: Uuid, key: Key) returns (mask48: bv64)
    ensures mask48 == FacadeMask(u, key)
  {
    var sipmsg := new bv8[10];
    BuildSipInputFromV7(u, sipmsg);
    var h := Hash(sipmsg[..], key.k0, key.k1);
    mask48 := h & Mask48;
  }

  /** Steps 2 and 3 of both C functions: XOR the timestamp field, write it back, set version and variant. */
  method ApplyMask(u: Uuid, mask48: bv64, ver: bv8) returns (r: Uuid)
    ensures r == Transform(u, mask48, ver)
  {
    var ts48 := Rd48be(u);
    var newTs := ts48 ^ mask48;
    var out := CopyOut(u);
    Wr48be(out, newTs);
    assert out[..] == out[..6] + out[6..];
    assert out[..] == WithTimestamp(u, newTs);
    SetVersion(out, ver);
    SetVariantRfc4122(out);
    r := out[..];
  }

  /** `uuidv47_encode_v4facade`: the facade, with version 4. */
  method EncodeV4Facade(v7: Uuid, key: Key) returns (r: Uuid)
    ensures r == Encode(v7, key)
  {
    var mask48 := ComputeMask(v7, key);
    r := ApplyMask(v7, mask48, 4);
  }

  /** `uuidv47_decode_v4facade`: the UUIDv7, with version 7. */
  method DecodeV4Facade(v4: Uuid, key: Key) returns (r: Uuid)
    ensures r == Decode(v4, key)
  {
    var mask48 := ComputeMask(v4, key);
    r := ApplyMask(v4, mask48, 7);
  }
}
