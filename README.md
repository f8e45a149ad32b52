# uuidv47 in Dafny

A model of uuidv47, a library that stores time-ordered UUIDv7 identifiers
(RFC 9562 section 5.7) and shows the outside world a UUIDv4-looking facade
(RFC 9562 section 5.4). The facade's 48-bit timestamp is XORed with the low
48 bits of a SipHash-2-4 of the identifier's 74 random bits under a secret
128-bit key. The random bits themselves are left where they are, so the mask
can be computed again from the facade and the transform can be undone.

The model covers two files:

- The portable header `uuidv47.h`:
  - the byte helpers;
  - SipHash-2-4;
  - the version and variant fields;
  - the SipHash message built from the random bits;
  - the encode and decode transforms;
  - the canonical 8-4-4-4-12 text codec.
- The logic of the PostgreSQL extension `pgext/uuid47/src/uuid47_pg.c`:
  - the parser of the `uuid47.key` setting and the `bytea` key conversion;
  - the conversions between PostgreSQL timestamps and Unix milliseconds;
  - UUIDv7 construction, the one-shot generators and the monotonic generator;
  - the version dispatch of the type's input and cast functions;
  - the byte order and its operators;
  - the key fingerprint.

Modules, one per file:

| file | module | what |
|---|---|---|
| wrappers.dfy | Wrappers | `Option` and `Result` |
| bytes.dfy | Bytes | `rd64le`, `rd48be`, `wr48be` |
| siphash.dfy | SipHash | SipHash-2-4 as functions, the C procedure as methods, the 13 reference vectors |
| uuid.dfy | Uuid47 | version and variant fields, the SipHash message, encode and decode |
| hex.dfy | Hex | hex digits shared by the text codec and the key parser |
| text.dfy | TextCodec | `uuid_parse` and `uuid_format` |
| key.dfy | KeyParse | the key setting and the `bytea` key |
| time.dfy | PgTime | PostgreSQL timestamps and Unix milliseconds |
| order.dfy | Order | `cmp16` and the comparison operators |
| dispatch.dfy | Dispatch | what enters and leaves the `uuid47` type |
| generator.dfy | Generator | `uuidv7_build_from_suffix`, the generators, the monotonic generator state |
| fingerprint.dfy | Fingerprint | `uuid47_key_fingerprint` |

How the model is built:

- Pure C helpers are functions.
- Code that writes through pointers or loops over buffers is a method, proved against those functions. This covers `wr48be`, `set_version`, `set_variant_rfc4122`, `build_sip_input_from_v7`, `uuid_parse`, `uuid_format`, `parse_hex_bytes_exact`, `parse_key_from_guc`, `uuidv7_build_from_suffix` and the fingerprint's hash updates.
- The monotonic generator's three static variables are the fields of the class `Generator.MonotonicGenerator`.
- An `ereport(ERROR, ...)` is the `Failure` of a `Result`.

## Model

| member | source | states |
|---|---|---|
| Bytes.Rd64leOfLe64 | uuidv47.h:22-28 | Reading the 8 little-endian bytes of a word back gives the word. |
| Bytes.Le64OfRd64le | uuidv47.h:22-28 | The word `rd64le` reads spells exactly the 8 bytes it was read from. |
| Bytes.Rd48be | uuidv47.h:38-42 | The value read from 6 bytes fits in 48 bits. |
| Bytes.Rd48beOfBe48 | uuidv47.h:29-42 | `rd48be` of the 6 bytes `wr48be` writes is the value modulo 2^48. |
| Bytes.Be48OfRd48be | uuidv47.h:29-42 | Writing back what `rd48be` read reproduces the 6 bytes. |
| Bytes.Wr48be | uuidv47.h:29-37 | Writes exactly the 6 big-endian bytes of the low 48 bits and leaves the rest of the buffer unchanged. |
| SipHash.ApplyRounds | uuidv47.h:61-77 | The round loop performs `n` SipRounds. |
| SipHash.CompressBlock | uuidv47.h:58-78 | One pass of the block loop: `v3 ^= m`, two rounds, `v0 ^= m`. |
| SipHash.FinalWord | uuidv47.h:81-100 | The fall-through switch builds the final word: tail bytes in the low lanes, the length on top. |
| SipHash.LastBlockLayout | uuidv47.h:53-100 | The final word's 8 little-endian bytes are the 0..7 tail bytes, zero padding, then the length modulo 256. |
| SipHash.Finalization | uuidv47.h:122-140 | `v2 ^= 0xff`, four rounds, then the XOR of the four words. |
| SipHash.Hash | uuidv47.h:46-141 | The C procedure computes SipHash-2-4: `inlen/8` little-endian blocks, the final word, the finalization. |
| SipHash.BlockEnd | uuidv47.h:53 | The whole-word part of a message ends at a multiple of 8 that is less than 8 bytes before its end. |
| SipHash.BlockEndAsWritten | uuidv47.h:53 | `inlen & ~7u` as written never reaches 2^32. |
| SipHash.BlockEndAsWrittenTruncates | uuidv47.h:53 | For a message of 2^32 + 8 bytes the expression as written gives 8, not 2^32 + 8. |
| SipHash.BlockEndAsWrittenArith | uuidv47.h:53 | `inlen & ~7u` is the length modulo 2^32 rounded down to a multiple of 8. |
| SipHash.TruncatedBlockEnd | uuidv47.h:53 | The block end as written is a multiple of 8, and the `inlen & 7` tail bytes after it end at the length modulo 2^32. |
| SipHash.TruncatedBlockEndOfCut | uuidv47.h:53 | Cutting the length down modulo 2^32 keeps the tail length and the length byte; the block end as written is the block end of the cut length. |
| SipHash.AbsorbPrefix | uuidv47.h:55-79 | The state after the first `n` words depends only on the bytes before `8n`. |
| SipHash.LastBlockOfCut | uuidv47.h:53-100 | The final word as written is the final word of the message cut down to its length modulo 2^32. |
| SipHash.SipHash24AsWrittenPrefix | uuidv47.h:46-141 | The code as written computes SipHash-2-4 of the message cut down to its length modulo 2^32. |
| SipHash.SipHash24AsWrittenAgrees | uuidv47.h:46-141 | Below 2^32 bytes the code as written computes SipHash-2-4. |
| SipHash.SipHash24AsWrittenTruncates | uuidv47.h:53 | A message of 2^32 + 9 bytes hashes as its first 9 bytes: its tail byte is read from offset 8. |
| SipHash.Vector0 | tests.c:57-90 | The empty message hashes to 0x726fdb47dd0e0e31 under the reference key. |
| SipHash.Vector1 | tests.c:57-90 | The message 0 hashes to 0x74f839c593dc67fd. |
| SipHash.Vector2 | tests.c:57-90 | The message 0,1 hashes to its listed value. |
| SipHash.Vector3 | tests.c:57-90 | The message 0..2 hashes to its listed value. |
| SipHash.Vector4 | tests.c:57-90 | The message 0..3 hashes to its listed value. |
| SipHash.Vector5 | tests.c:57-90 | The message 0..4 hashes to its listed value. |
| SipHash.Vector6 | tests.c:57-90 | The message 0..5 hashes to its listed value. |
| SipHash.Vector7 | tests.c:57-90 | The message 0..6 hashes to its listed value. |
| SipHash.Vector8 | tests.c:57-90 | The message 0..7 (one whole block) hashes to its listed value. |
| SipHash.Vector9 | tests.c:57-90 | The message 0..8 hashes to its listed value. |
| SipHash.Vector10 | tests.c:57-90 | The message 0..9 hashes to its listed value. |
| SipHash.Vector11 | tests.c:57-90 | The message 0..10 hashes to its listed value. |
| SipHash.Vector12 | tests.c:57-90 | The message 0..11 hashes to its listed value. |
| Uuid47.Version | uuidv47.h:145 | The version is the high nibble of byte 6, a value below 16. |
| Uuid47.WithVersion | uuidv47.h:146 | The version becomes `ver & 0x0F`; the low nibble of byte 6 and every other byte are kept. |
| Uuid47.SetVersion | uuidv47.h:146 | The in-place `set_version` leaves the array holding `WithVersion` of its old contents. |
| Uuid47.WithRfcVariant | uuidv47.h:147 | The variant bits of byte 8 become `10`; its low 6 bits and every other byte are kept. |
| Uuid47.SetVariantRfc4122 | uuidv47.h:147 | The in-place `set_variant_rfc4122` leaves the array holding `WithRfcVariant` of its old contents. |
| Uuid47.FieldsDetermine | uuidv47.h:145-158 | Two identifiers that agree in timestamp bytes, version and random bits and have the RFC variant are equal. |
| Uuid47.SipInputExactlyRandom | uuidv47.h:149-160 | Two identifiers give the same SipHash message exactly when their 74 random bits agree. |
| Uuid47.BuildSipInputFromV7 | uuidv47.h:150-158 | Writes the 10-byte message: low nibble of byte 6, byte 7, low 6 bits of byte 8, bytes 9-15. |
| Uuid47.FacadeMask | uuidv47.h:165-168 | The mask, SipHash of the message cut to its low 48 bits, fits in 48 bits. |
| Uuid47.FacadeMaskStable | uuidv47.h:159-160 | Identifiers with the same random bits get the same mask. |
| Uuid47.Transform | uuidv47.h:170-178 | Bytes 0-5 are XORed with the mask; the version is set and the variant is made RFC; the random bits are kept. |
| Uuid47.TransformTwice | uuidv47.h:163-199 | Transforming twice with one mask and restoring the original version gives the original back. |
| Uuid47.Encode | uuidv47.h:163-180 | The facade has version 4 and the RFC variant, keeps the random bits, and has the timestamp bytes XOR the mask. |
| Uuid47.Decode | uuidv47.h:182-199 | Decoding gives version 7 and the RFC variant, keeps the random bits, and XORs the same mask into bytes 0-5. |
| Uuid47.TransformedTimestamp | uuidv47.h:170-176 | The new bytes 0-5 are the big-endian `rd48be(u) ^ mask48`. |
| Uuid47.TransformKeepsSipInput | tests.c:105-116 | Encode and decode leave the SipHash message unchanged. |
| Uuid47.DecodeEncode | tests.c:118-135 | Decoding the facade of a version-7 RFC-variant identifier under the same key gives it back. |
| Uuid47.EncodeDecode | uuidv47.h:163-199 | Encoding the decoded form of a version-4 RFC-variant facade gives the facade back. |
| Uuid47.ComputeMask | uuidv47.h:166-168 | Builds the message and hashes it to the facade mask. |
| Uuid47.ApplyMask | uuidv47.h:171-178 | Copies the input, writes the XORed timestamp, then sets version and variant. |
| Uuid47.EncodeV4Facade | uuidv47.h:163-180 | The C procedure of `uuidv47_encode_v4facade` computes `Encode`. |
| Uuid47.DecodeV4Facade | uuidv47.h:182-199 | The C procedure of `uuidv47_decode_v4facade` computes `Decode`. |
| Hex.HexVal | uuidv47.h:202-211 | -1 exactly for characters that are not hex digits, else the digit's value below 16. |
| Hex.HexValIgnoresCase | uuidv47.h:206-209 | An upper-case letter has the same value as its lower-case form. |
| Hex.HexDigit | uuidv47.h:232 | The lower-case digit for `n` is a hex digit whose value is `n`. |
| Hex.HexDigitIsTableLookup | uuidv47.h:232 | That digit is entry `n` of the table `0123456789abcdef`. |
| Hex.HexDigitOfHexVal | uuidv47.h:232 | A lower-case digit is the table entry of its own value. |
| Hex.PairByte | uuidv47.h:224 | The byte `(h << 4) \| l` has `h` as high nibble and `l` as low nibble. |
| Hex.PairByteOfDigits | uuidv47.h:239-240 | A byte's two printed digits read back as the byte. |
| Hex.DecodeHexAt | pgext/uuid47/src/uuid47_pg.c:128-135 | Byte `i` of the decoded string comes from digits `2i` and `2i+1`. |
| Hex.DecodeHexAppend | pgext/uuid47/src/uuid47_pg.c:125-137 | Decoding distributes over concatenation of digit strings. |
| Hex.EncodeHexLower | uuidv47.h:239-240 | Every printed digit is a lower-case hex digit. |
| Hex.DecodeEncodeHex | uuidv47.h:239-240 | Printed digits decode back to the bytes. |
| Hex.DecodeDigitsExample | pgext/uuid47/src/uuid47_pg.c:256 | `0011223344556677` decodes to the bytes 0x00, 0x11, ..., 0x77. |
| TextCodec.IdxsIsNibbleTable | uuidv47.h:216 | The 32-entry offset table lists the digit offsets of the 8-4-4-4-12 form. |
| TextCodec.ParseThrough | uuidv47.h:217-227 | The parse loop succeeds exactly when all 32 digit offsets hold hex digits. On success it stores the bytes; on failure the output is unchanged. |
| TextCodec.UuidParse | uuidv47.h:213-228 | `uuid_parse` is that loop over its own offset table. |
| TextCodec.Format | uuidv47.h:230-243 | 36 characters, with `-` exactly at offsets 8, 13, 18 and 23 and lower-case hex digits elsewhere. |
| TextCodec.UuidFormat | uuidv47.h:230-243 | The loop writes `Format(u)` and a NUL at offset 36. |
| TextCodec.FormatAtByte | uuidv47.h:235-241 | Byte `i` is printed high nibble first at its two digit offsets. |
| TextCodec.ParseFormat | tests.c:29-41 | Parsing the printed form of any 16 bytes gives them back. |
| TextCodec.FormatParse | uuidv47.h:213-243 | A canonical lower-case string parses and prints back to itself. |
| TextCodec.AllDigitsHexOffsets | uuidv47.h:218-223 | The parse succeeds exactly when every non-hyphen offset below 36 holds a hex digit. |
| TextCodec.ParseIgnoresSeparators | uuidv47.h:216-221 | Strings that agree at the 32 digit offsets parse alike, whatever sits at the hyphen offsets. |
| TextCodec.CanonicalParses | uuidv47.h:213-228 | A canonical string is accepted. |
| TextCodec.ParseExample | tests.c:29-35 | A canonical UUIDv7 string parses to version 7 with the RFC variant. |
| TextCodec.ParseRejectsExample | tests.c:43-45 | A string of `z`s is rejected. |
| KeyParse.Compact | pgext/uuid47/src/uuid47_pg.c:156-162 | The compacted setting holds no white space and is no longer than the setting. |
| KeyParse.CompactIdempotent | pgext/uuid47/src/uuid47_pg.c:156-162 | Compacting twice is compacting once. |
| KeyParse.CompactInto | pgext/uuid47/src/uuid47_pg.c:156-162 | The copy loop fills `compact[]` with the compacted setting and a NUL. |
| KeyParse.IndexOf | pgext/uuid47/src/uuid47_pg.c:164 | The first `:`, or none when there is none. |
| KeyParse.StrChr | pgext/uuid47/src/uuid47_pg.c:164 | The `strchr` over `compact[]` finds that first `:`. |
| KeyParse.Half | pgext/uuid47/src/uuid47_pg.c:188-191 | A 16-character half gives a word exactly when it is all hex digits. |
| KeyParse.HalfBytes | pgext/uuid47/src/uuid47_pg.c:188-191 | The word's little-endian bytes are the decoded bytes of the half. |
| KeyParse.KeyOfHalves | pgext/uuid47/src/uuid47_pg.c:188-197 | Two halves give a key exactly when both are all hex digits. |
| KeyParse.KeyFromCompact | pgext/uuid47/src/uuid47_pg.c:164-219 | Only compacted settings of 32 to 37 characters give a key. |
| KeyParse.KeyFromGuc | pgext/uuid47/src/uuid47_pg.c:153-219 | An unset setting gives no key; a key needs 32 to 37 non-space characters. |
| KeyParse.KeyFromGucIgnoresSpace | pgext/uuid47/src/uuid47_pg.c:156-162 | A white-space character anywhere in a non-empty setting changes nothing. |
| KeyParse.KeyFromCompactColon | pgext/uuid47/src/uuid47_pg.c:164-198 | `lhs:rhs` with 16-character halves gives the key of the two halves. |
| KeyParse.KeyFromCompactJoin | pgext/uuid47/src/uuid47_pg.c:165-186 | When `lhs` has no `:`, the setting `lhs:rhs` is split at that colon and each side loses an optional `0x`/`0X` before the length test. |
| KeyParse.ColonFormPrefixed | pgext/uuid47/src/uuid47_pg.c:171-183 | A `0x` or `0X` before either 16-digit half is dropped, and the key is the key of the two halves. |
| KeyParse.KeyFromGucColonForm | pgext/uuid47/src/uuid47_pg.c:139-142 | Every key is read back from its `k0:k1` form of little-endian hex halves. |
| KeyParse.KeyFromGucPrefixedColon | pgext/uuid47/src/uuid47_pg.c:139-198 | The setting `0xlhs:0Xrhs`, with either case of `x` on each side, parses to the key of the two 16-digit halves. |
| KeyParse.KeyFromGucPrefixedColonForm | pgext/uuid47/src/uuid47_pg.c:139-142 | Every key is read back from its `0xk0:0xk1` form, with either case of each `x`. |
| KeyParse.HalfExampleValue | pgext/uuid47/src/uuid47_pg.c:140 | The half `0011223344556677` is the word 0x7766554433221100. |
| KeyParse.KeyFromBytea | pgext/uuid47/src/uuid47_pg.c:222-246 | Fails with the 16/actual length error unless there are 16 bytes. Otherwise the key's two little-endian words spell the 16 bytes. |
| KeyParse.KeyFromGucAgreesWithBytea | pgext/uuid47/src/uuid47_pg.c:200-217 | The 32 hex digits of 16 bytes parse to the same key as the 16 bytes as `bytea`. |
| KeyParse.KeyFromGucHexPrefix | pgext/uuid47/src/uuid47_pg.c:201-206 | A `0x` before the 32 digits changes nothing. |
| KeyParse.KeyFromGucOrError | pgext/uuid47/src/uuid47_pg.c:248-258 | An error exactly when the setting gives no key, and that error is always `KeyNotSet`; otherwise that key. |
| KeyParse.ParseHexBytesExact | pgext/uuid47/src/uuid47_pg.c:125-137 | Succeeds exactly when the `2n` characters are hex; then the `n` bytes are their decoding. Bytes past `n` are untouched. On failure some pair is not hex. |
| KeyParse.ReadHalf | pgext/uuid47/src/uuid47_pg.c:189-191 | Parses one half into the buffer and reads it little-endian: the word of `Half`. |
| KeyParse.ReadKey | pgext/uuid47/src/uuid47_pg.c:188-197 | Both halves in order. On failure, `k0` may already be overwritten by the first half. |
| KeyParse.SkipHexPrefix | pgext/uuid47/src/uuid47_pg.c:171-183 | The pointer and length adjustment drops one `0x` or `0X`. |
| KeyParse.ReadColonForm | pgext/uuid47/src/uuid47_pg.c:165-198 | The colon branch yields exactly the key of `KeyFromCompact`. |
| KeyParse.ReadParts | pgext/uuid47/src/uuid47_pg.c:185-197 | The length check and the two half reads. |
| KeyParse.ReadPlainForm | pgext/uuid47/src/uuid47_pg.c:200-219 | The `memmove` of the prefix, the length check and the two reads yield the key of `KeyFromCompact`. |
| KeyParse.ParseKeyFromGuc | pgext/uuid47/src/uuid47_pg.c:144-220 | `parse_key_from_guc` succeeds exactly when `KeyFromGuc` gives a key, and then returns that key. |
| PgTime.ToInt64 | pgext/uuid47/src/uuid47_pg.c:90 | The `int64` cast of a `uint64_t` is the value congruent to it modulo 2^64. |
| PgTime.ClampedMs | pgext/uuid47/src/uuid47_pg.c:103-105 | Negative Unix microseconds give 0; otherwise the whole milliseconds that contain the instant. |
| PgTime.CurrentUnixMs | pgext/uuid47/src/uuid47_pg.c:71-82 | The millisecond containing the clock reading, shifted to the Unix epoch, or 0 before it. |
| PgTime.TimestamptzToUnixMs | pgext/uuid47/src/uuid47_pg.c:95-106 | The same for a given timestamp; the result is at most `INT64_MAX / 1000`. |
| PgTime.UnixUs | pgext/uuid47/src/uuid47_pg.c:90 | `(int64)(ms * 1000ULL)`, equal to `ms * 1000` whenever that fits. |
| PgTime.UnixMsToTimestamptz | pgext/uuid47/src/uuid47_pg.c:84-93 | Shifted to the PostgreSQL epoch, the timestamp is `ms * 1000` microseconds. |
| PgTime.TimestampFieldConverts | pgext/uuid47/src/uuid47_pg.c:667-677 | Every 48-bit timestamp field converts to a timestamp and back without overflow. |
| PgTime.TimestampRoundTrip | pgext/uuid47/src/uuid47_pg.c:84-106 | Converting milliseconds to a timestamp and back gives the milliseconds. |
| PgTime.TimestamptzToUnixMsMonotone | pgext/uuid47/src/uuid47_pg.c:95-106 | A later timestamp never gives fewer milliseconds. |
| PgTime.UnixMsToTimestamptzIncreasing | pgext/uuid47/src/uuid47_pg.c:84-93 | More milliseconds give a later timestamp. |
| PgTime.CurrentUnixMsIsConversion | pgext/uuid47/src/uuid47_pg.c:71-106 | The clock conversion and the timestamp conversion agree. |
| PgTime.BeforeUnixEpochClamps | pgext/uuid47/src/uuid47_pg.c:102-105 | Timestamps before 1970 clamp to 0. |
| Order.Compare | pgext/uuid47/src/uuid47_pg.c:785-790 | The sign of `memcmp`: -1, 0 or 1, and 0 exactly for equal bytes. |
| Order.CompareLess | pgext/uuid47/src/uuid47_pg.c:782-791 | -1 exactly when the first operand is lexicographically smaller. |
| Order.CompareGreater | pgext/uuid47/src/uuid47_pg.c:782-791 | 1 exactly when the second operand is lexicographically smaller. |
| Order.CompareAntisymmetric | pgext/uuid47/src/uuid47_pg.c:782-791 | Swapping the operands negates the result. |
| Order.CompareTransitive | pgext/uuid47/src/uuid47_pg.c:782-791 | The order is transitive. |
| Order.CompareAtFirstDifference | pgext/uuid47/src/uuid47_pg.c:782-791 | A larger byte after an equal prefix compares greater. |
| Order.Cmp16 | pgext/uuid47/src/uuid47_pg.c:782-791 | -1, 0 or 1 as lexicographic byte order says; 0 exactly for equal identifiers. |
| Order.Eq | pgext/uuid47/src/uuid47_pg.c:805-813 | True exactly for equal identifiers. |
| Order.Ne | pgext/uuid47/src/uuid47_pg.c:816-824 | True exactly for different identifiers. |
| Order.Lt | pgext/uuid47/src/uuid47_pg.c:827-835 | Lexicographically smaller. |
| Order.Le | pgext/uuid47/src/uuid47_pg.c:838-846 | Equal or lexicographically smaller. |
| Order.Gt | pgext/uuid47/src/uuid47_pg.c:849-857 | Lexicographically larger. |
| Order.Ge | pgext/uuid47/src/uuid47_pg.c:860-868 | Equal or lexicographically larger. |
| Order.Trichotomy | pgext/uuid47/src/uuid47_pg.c:805-868 | Exactly one of `<`, `=`, `>` holds, and `a < b` is `b > a`. |
| Dispatch.ToV7WithGucKey | pgext/uuid47/src/uuid47_pg.c:405-435 | A version-7 value is kept as is. A version-4 value is decoded with the setting's key, failing with `BadKey(KeyNotSet)` when there is none. Other versions fail with `UnsupportedVersion` of their version. The same rule serves `uuid47_in` (288-310) and `uuid47_recv` (347-363). |
| Dispatch.ToV7WithKey | pgext/uuid47/src/uuid47_pg.c:460-488 | A key that is not 16 bytes fails first, whatever the version. Then the same version rule applies under the `bytea` key: with a 16-byte key, a version other than 7 or 4 fails with `UnsupportedVersion` of that version. |
| Dispatch.ToFacadeWithGucKey | pgext/uuid47/src/uuid47_pg.c:385-402 | The facade under the setting's key, or an error when the setting gives none. |
| Dispatch.ToFacadeWithKey | pgext/uuid47/src/uuid47_pg.c:438-457 | The facade under a 16-byte key, or the length error. |
| Dispatch.WithKeyRoundTrip | pgext/uuid47/src/uuid47_pg.c:438-488 | A version-7 RFC-variant value sent out as a facade and taken back under the same key is unchanged. |
| Dispatch.WithKeyFacadeRoundTrip | pgext/uuid47/src/uuid47_pg.c:438-488 | A version-4 RFC-variant facade taken in and sent out under the same key is unchanged. |
| Dispatch.GucKeyRoundTrip | pgext/uuid47/src/uuid47_pg.c:385-435 | Both round trips hold under the setting's key whenever it is valid. |
| Dispatch.VariantNotChecked | pgext/uuid47/src/uuid47_pg.c:473-480 | Only the version nibble is checked. A version-7 value with another variant is accepted, and its facade round trip does not give it back. |
| Generator.DigitsAgreeWithBe48 | uuidv47.h:29-42 | The six bytes `Digits` writes for the value `ValueOf` reads are the bytes `wr48be` writes for the word `rd48be` reads, and both are the bytes read. |
| Generator.FromSuffixLayout | pgext/uuid47/src/uuid47_pg.c:511-528 | Version 7 and the RFC variant, timestamp field `ms mod 2^48`. The SipHash message is the masked suffix. |
| Generator.StoreTimestamp | pgext/uuid47/src/uuid47_pg.c:514 | Writes the 6 big-endian bytes of the timestamp and nothing else. |
| Generator.BuildFromSuffix | pgext/uuid47/src/uuid47_pg.c:511-528 | The writes into `out` leave it holding `FromSuffix(ms, suffix)`. |
| Generator.NewMsIncreases | pgext/uuid47/src/uuid47_pg.c:563-577 | Below 2^48, a later millisecond gives a larger identifier whatever the random bits. |
| Generator.Inc32 | pgext/uuid47/src/uuid47_pg.c:585 | The `uint32` increment: one more, except that it wraps to 0 exactly from 2^32 - 1. |
| Generator.Combined | pgext/uuid47/src/uuid47_pg.c:616 | `hi << 32 \| ctr` fits in 74 bits. |
| Generator.PackFits | pgext/uuid47/src/uuid47_pg.c:618-620 | The packed suffix's first byte fits 4 bits and its third 6 bits. |
| Generator.PackOrder | pgext/uuid47/src/uuid47_pg.c:613-631 | A larger 74-bit value packs to a lexicographically larger suffix. |
| Generator.PackIncreases | pgext/uuid47/src/uuid47_pg.c:613-631 | Within one millisecond, a larger packed value gives a larger identifier. |
| Generator.RandHi | pgext/uuid47/src/uuid47_pg.c:573-576 | The new `hi` is the low 42 bits of the big-endian 8 random bytes. |
| Generator.RandomSuffix | pgext/uuid47/src/uuid47_pg.c:540-545 | The 10 random bytes masked to 4, 8, 6 and 56 random bits. |
| Generator.Generate | pgext/uuid47/src/uuid47_pg.c:531-553 | A UUIDv7 with the current millisecond (mod 2^48) and the masked random bits. |
| Generator.GenerateAtTimestamp | pgext/uuid47/src/uuid47_pg.c:639-661 | A UUIDv7 generated at a timestamp reads back that timestamp truncated to the millisecond. Its random bits are the masked random bytes. |
| Generator.Timestamp | pgext/uuid47/src/uuid47_pg.c:667-677 | The timestamp field as a `TimestampTz`, `ms * 1000` microseconds after the Unix epoch. |
| Generator.FirstAfter | pgext/uuid47/src/uuid47_pg.c:591-595 | The first clock reading past `last`: every earlier reading is at most `last`. |
| Generator.WaitPast | pgext/uuid47/src/uuid47_pg.c:591-595 | The `do ... while` loop returns that reading. |
| Generator.MonotonicGenerator.constructor | pgext/uuid47/src/uuid47_pg.c:494-496 | The three statics start at zero. |
| Generator.MonotonicGenerator.Next | pgext/uuid47/src/uuid47_pg.c:555-636 | The new state per branch: later ms, backward clock, same ms, counter wrap. The output is the identifier the new state spells. |
| Generator.StepProperties | pgext/uuid47/src/uuid47_pg.c:563-611 | The millisecond never decreases, and the counter restarts exactly when a later millisecond is adopted. A backward clock re-emits the previous identifier. Every other call (below 2^48) emits a strictly larger one. |
| Fingerprint.KeyWords | pgext/uuid47/src/uuid47_pg.c:765-771 | The four 32-bit words, low half of `k0` first. |
| Fingerprint.FnvFoldFour | pgext/uuid47/src/uuid47_pg.c:764-772 | Folding four words is four FNV-1a steps. |
| Fingerprint.HashKey | pgext/uuid47/src/uuid47_pg.c:764-772 | The eight `^=`/`*=` updates compute the FNV-1a fold of the key's words. |
| Fingerprint.Rd32beOfBe32 | pgext/uuid47/src/uuid47_pg.c:774 | The 4 big-endian bytes of the hash read back as the hash. |
| Fingerprint.Hex32 | pgext/uuid47/src/uuid47_pg.c:774 | `%08x` is 8 characters. |
| Fingerprint.FingerprintOf | pgext/uuid47/src/uuid47_pg.c:774 | 11 characters starting `v1-`. |
| Fingerprint.FingerprintReadsBack | pgext/uuid47/src/uuid47_pg.c:764-774 | The 8 digits are lower-case hex and decode to the hash. |
| Fingerprint.KeyFingerprint | pgext/uuid47/src/uuid47_pg.c:753-776 | An error exactly when the setting gives no key; otherwise that key's tag. |
| Fingerprint.ExampleKeyHash | pgext/uuid47/src/uuid47_pg.c:764-772 | The key with words k0 = 0x7766554433221100 and k1 = 0xFFEEDDCCBBAA9988 hashes to 0x270508e5. These are the little-endian words that the setting `0011223344556677:8899aabbccddeeff` spells; the lemma starts from the words, not from the setting text. |

## Left out

- PostgreSQL glue is not modelled: `PG_GETARG_*`, `PG_RETURN_*`, `palloc`, `_PG_init` and its setting registration, and `uuid47_send`, `pq_copymsgbytes` and `pq_sendbytes`. `uuid47_recv` is modelled only through its version dispatch.
- PostgreSQL's own `uuid_in` and `uuid_out` are not part of this model. `uuid47_in` and `uuid47_out` are modelled by the dispatch that follows or precedes them.
- The clock (`GetCurrentTimestamp`) is a parameter: the clock reading, or the sequence of readings the wait loop takes.
- `pg_usleep` is not modelled.
- Randomness is a parameter holding the random bytes. `fill_rand` and its `random()` fallback are not modelled.
- `uuid47_brin_distance` is left out: it works in floating point.
- `uuid47_hash` is left out: it calls PostgreSQL's `hash_bytes`.
- `uuid47_cmp` is not modelled separately: it returns `cmp16`, which `Order.Cmp16` models.
- `uuid47_as_v7` is left out: it is a 16-byte copy.
- `uuid47_explain` is left out: it builds a result tuple.
- Concurrency is not modelled: one backend owns one generator object.
- The declaration of `parse_hex64` has no definition in the source and is not modelled.
- C strings are modelled as sequences of characters without NUL. One Dafny `char` stands for one C byte, so only characters below 256 have a C counterpart. A `char` of 256 or more, or a multi-byte UTF-8 sequence at the hyphen offsets that `uuid_parse` does not check, has no faithful C input.
- SipHash.Hash: absorbs every whole 8-byte word, as intended. For messages of 2^32 bytes or more the C code as written stops at `SipHash.TruncatedBlockEnd` instead. `SipHash.SipHash24AsWritten` models that, and `SipHash.SipHash24AsWrittenPrefix` states what it computes.
- `isspace` is the C-locale set of six characters.
- Generator.MonotonicGenerator.Next: the wait loop's clock readings are a finite sequence, with a precondition that one of them is past the last millisecond. The real loop may sleep for ever if the clock never advances.
- Generator.MonotonicGenerator: `lastMs`, `ctr` and `hi` are integers checked against the ranges of `uint64_t`, `uint32` and 42 bits. They are not bit-vectors, and the counter's wrap-around is written out in `Generator.Inc32`.
- Generator.StepProperties: strict increase is stated only for milliseconds below 2^48. Above that the timestamp field wraps, as the C code does.
- Generator.Timestamp: reads the 6 timestamp bytes as a big-endian integer, not as the bit-vector of `Bytes.Rd48be`. `Generator.DigitsAgreeWithBe48` shows that both spell the same six bytes.
- TextCodec.UuidParse: strings shorter than 36 characters are excluded by a precondition. The C code reads past their end.
- KeyParse.ParseKeyFromGuc: settings with more than 128 non-space characters are excluded by a precondition. The C code overflows `compact[129]` on them. `KeyParse.KeyFromGuc` itself is defined for all strings.
- KeyParse.ParseKeyFromGuc: on failure the contract says only that `k1` keeps its old value. Like the C code, the model may already have overwritten `k0`.
- PgTime.CurrentUnixMs: signed 64-bit overflow is undefined behaviour in C, so inputs whose epoch shift overflows `int64` are excluded by preconditions (`ShiftFits`, `UnshiftFits`).
- PgTime.TimestamptzToUnixMs: the same preconditions. SQL can reach the excluded inputs: `'infinity'::timestamptz` is stored as the largest `int64`, and `uuid47_generate_at` (uuid47_pg.c:638-659) passes it to `timestamptz_to_unix_ms`, whose `pg_us + 946684800000000` (uuid47_pg.c:101) then overflows. Timestamps late enough to make that sum overflow are likewise excluded. The model says nothing about the result for these arguments.
- The wrong-key inequality of tests.c:137-139 is a statistical property and is not stated.

## Findings

| source | as written | input that shows it | evidently intended | confidence | as-written member | corrected member |
|---|---|---|---|---|---|---|
| uuidv47.h:53 | `in + (inlen & ~7u)`. The mask `~7u` is a 32-bit `unsigned`, and it is zero-extended when it meets the 64-bit `size_t`. | A message of 2^32 + 9 bytes: the block loop stops after 8 bytes, not 2^32 + 8. The switch then reads its one tail byte from offset 8, not 2^32 + 8, so the result is SipHash-2-4 of the first 9 bytes. | `inlen & ~(size_t)7`: every whole 8-byte word is absorbed. | High for messages of 4 GiB or more. The library itself only hashes 10-byte messages. Not executed. | SipHash.SipHash24AsWrittenTruncates | SipHash.Hash |
