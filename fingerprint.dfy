/**
 * `uuid47_key_fingerprint` in uuid47_pg.c: a short public tag of the key in
 * the `uuid47.key` setting, so that two servers can tell whether they use the
 * same key without showing it.  The tag is `v1-` and the 32-bit FNV-1a fold
 * of the key's four 32-bit halves as eight lowercase hex digits.
 */
module Fingerprint {
  import opened Wrappers
  import opened Uuid47
  import opened Hex
  import opened KeyParse

  /** The FNV-1a offset basis and prime (32 bits). */
  const FnvOffsetBasis: bv32 := 2166136261
  const FnvPrime: bv32 := 16777619

  /** `(uint32)w` and `(uint32)(w >> 32)`. */
  function Lo32(w: bv64): bv32
  {
    (w & 0xFFFF_FFFF) as bv32
  }

  function Hi32(w: bv64): bv32
  {
    (w >> 32) as bv32
  }

  /** The words folded, in the order the code folds them. */
  function KeyWords(key: Key): (ws: seq<bv32>)
    ensures |ws| == 4
  {
    [Lo32(key.k0), Hi32(key.k0), Lo32(key.k1), Hi32(key.k1)]
  }

  /** One FNV-1a step on a 32-bit word: `hash ^= w; hash *= 16777619u;`, wrapping modulo 2^32. */
  function FnvStep(hash: bv32, w: bv32): bv32
  {
    (hash ^ w) * FnvPrime
  }

  /** The fold of `FnvStep` over a sequence of words. */
  function FnvFold(hash: bv32, ws: seq<bv32>): bv32
    decreases |ws|
  {
    if ws == [] then hash else FnvFold(FnvStep(hash, ws[0]), ws[1..])
  }

  /** The 32-bit hash of a key. */
  function KeyHash(key: Key): bv32
  {
    FnvFold(FnvOffsetBasis, KeyWords(key))
  }

  /** The four folds of one word each. */
  lemma FnvFoldFour(hash: bv32, ws: seq<bv32>)
    requires |ws| == 4
    ensures FnvFold(hash, ws) == FnvStep(FnvStep(FnvStep(FnvStep(hash, ws[0]), ws[1]), ws[2]), ws[3])
  {
    var h1 := FnvStep(hash, ws[0]);
    var h2 := FnvStep(h1, ws[1]);
    var h3 := FnvStep(h2, ws[2]);
    assert FnvFold(hash, ws) == FnvFold(h1, ws[1..]);
    assert FnvFold(h1, ws[1..]) == FnvFold(h2, ws[2..]) by { assert ws[1..][1..] == ws[2..]; }
    assert FnvFold(h2, ws[2..]) == FnvFold(h3, ws[3..]) by { assert ws[2..][1..] == ws[3..]; }
    assert FnvFold(h3, ws[3..]) == FnvFold(FnvStep(h3, ws[3]), []) by { assert ws[3..][1..] == []; }
  }

  /**
   * The statements of `uuid47_key_fingerprint` that build `hash`: each pair
   * `hash ^= w; hash *= 16777619u;` is one `FnvStep`.
   */
  method HashKey(key: Key) returns (hash: bv32)
    ensures hash == KeyHash(key)
  {
    hash := FnvOffsetBasis;
    hash := FnvStep(hash, Lo32(key.k0));
    hash := FnvStep(hash, Hi32(key.k0));
    hash := FnvStep(hash, Lo32(key.k1));
    hash := FnvStep(hash, Hi32(key.k1));
    FnvFoldFour(FnvOffsetBasis, KeyWords(key));
  }

  /** The four bytes of a 32-bit word, most significant first. */
  function Be32(h: bv32): (r: seq<bv8>)
    ensures |r| == 4
  {
    [(h >> 24) as bv8, ((h >> 16) & 0xFF) as bv8, ((h >> 8) & 0xFF) as bv8, (h & 0xFF) as bv8]
  }

  /** Four bytes read back most significant first. */
  function Rd32be(b: seq<bv8>): bv32
    requires |b| >= 4
  {
    ((b[0] as bv32) << 24) | ((b[1] as bv32) << 16) | ((b[2] as bv32) << 8) | (b[3] as bv32)
  }

  lemma Rd32beOfBe32(h: bv32)
    ensures Rd32be(Be32(h)) == h
  {
  }

  /** `snprintf(buf, ..., "%08x", hash)`: eight lowercase hex digits, leading zeros kept. */
  function Hex32(h: bv32): (s: string)
    ensures |s| == 8
  {
    EncodeHex(Be32(h))
  }

  /** `"v1-%08x"` of the key's hash. */
  function FingerprintOf(key: Key): (s: string)
    ensures |s| == 11 && s[..3] == "v1-"
  {
    "v1-" + Hex32(KeyHash(key))
  }

  /**
   * The tag is 11 characters, `v1-` then lowercase hex digits, and the digits
   * read back as the hash: nothing of the hash is lost in the text.
   */
  lemma FingerprintReadsBack(key: Key)
    ensures forall i | 3 <= i < 11 :: IsLowerHexDigit(FingerprintOf(key)[i])
    ensures AllHex(FingerprintOf(key)[3..]) && Rd32be(DecodeHex(FingerprintOf(key)[3..])) == KeyHash(key)
  {
    var s := FingerprintOf(key);
    assert s[3..] == Hex32(KeyHash(key));
    EncodeHexLower(Be32(KeyHash(key)));
    DecodeEncodeHex(Be32(KeyHash(key)));
    Rd32beOfBe32(KeyHash(key));
  }

  /**
   * `uuid47_key_fingerprint`: an error unless the setting holds a valid key,
   * else the tag of that key.
   */
  function KeyFingerprint(guc: Option<string>): (r: Result<string, KeyError>)
    ensures r.Success? <==> KeyFromGuc(guc).Some?
    ensures r.Success? ==> r.value == FingerprintOf(KeyFromGuc(guc).value)
    ensures r.Failure? ==> r.error == KeyNotSet
  {
    match KeyFromGuc(guc)
    case None => Failure(KeyNotSet)
    case Some(key) => Success(FingerprintOf(key))
  }

  /** The key with words 0x7766554433221100 and 0xFFEEDDCCBBAA9988 (the setting `0011223344556677:8899aabbccddeeff`) hashes to 0x270508e5. */
  lemma ExampleKeyHash()
    ensures KeyHash(Key(0x7766_5544_3322_1100, 0xFFEE_DDCC_BBAA_9988)) == 0x2705_08E5
  {
    var ws := KeyWords(Key(0x7766_5544_3322_1100, 0xFFEE_DDCC_BBAA_9988));
    assert ws == [0x3322_1100, 0x7766_5544, 0xBBAA_9988, 0xFFEE_DDCC];
    FnvFoldFour(FnvOffsetBasis, ws);
    assert FnvStep(FnvOffsetBasis, 0x3322_1100) == 0x5D77_9A1F;
    assert FnvStep(0x5D77_9A1F, 0x7766_5544) == 0x9509_6C41;
    assert FnvStep(0x9509_6C41, 0xBBAA_9988) == 0x351B_EB6B;
    assert FnvStep(0x351B_EB6B, 0xFFEE_DDCC) == 0x2705_08E5;
  }
}
