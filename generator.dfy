/**
 * UUIDv7 generation in uuid47_pg.c: `uuidv7_build_from_suffix`, which lays a
 * 48-bit millisecond timestamp and 74 random bits out as a UUIDv7, the
 * one-shot generators `uuid47_generate` and `uuid47_generate_at`, and the
 * monotonic generator `uuid47_generate_monotonic`, which keeps the last
 * millisecond, a 32-bit counter and 42 random high bits between calls (the
 * fixed-length dedicated counter of section 6.2 of RFC 9562).
 *
 * The generator's numbers (`uint64_t` milliseconds, the `uint32` counter,
 * the 74-bit `__uint128_t` packing) are integers checked against their C
 * ranges, with the counter's wrap-around written out; a shift right by 8k
 * bits is a division by 256^k, so the byte order of the identifiers follows
 * from the integer order of what they encode.
 */
module Generator {
  import opened Bytes
  import opened Uuid47
  import opened Order
  import opened PgTime

  const TwoTo32: nat := 0x1_0000_0000
  const TwoTo42: nat := 0x400_0000_0000
  const TwoTo48: nat := 0x1_0000_0000_0000
  const TwoTo56: nat := 0x100_0000_0000_0000
  const TwoTo74: nat := 0x400_0000_0000_0000_0000

  function Pow256(n: nat): (r: nat)
    ensures r > 0
  {
    if n == 0 then 1 else 256 * Pow256(n - 1)
  }

  /** The low `n` bytes of `v`, most significant first: `(uint8_t)(v >> 8k)` for k = n-1 .. 0. */
  function Digits(v: nat, n: nat): (r: seq<bv8>)
    ensures |r| == n
  {
    if n == 0 then [] else Digits(v / 256, n - 1) + [(v % 256) as bv8]
  }

  /** The number a byte string spells big-endian, as `rd48be` and the `rv` of the generator read it. */
  function ValueOf(s: seq<bv8>): (r: nat)
  {
    if s == [] then 0 else ValueOf(s[..|s| - 1]) * 256 + s[|s| - 1] as int
  }

  lemma ByteRoundTrip(x: bv8)
    ensures 0 <= x as int < 256 && (x as int) as bv8 == x
  {
  }

  /** Values below 256 survive the byte cast; the proof takes sixteen values at a time. */
  lemma ByteOfInt(p: int)
    requires 0 <= p < 256
    ensures (p as bv8) as int == p
  {
    if p < 0x10 {} else if p < 0x20 {} else if p < 0x30 {} else if p < 0x40 {}
    else if p < 0x50 {} else if p < 0x60 {} else if p < 0x70 {} else if p < 0x80 {}
    else if p < 0x90 {} else if p < 0xA0 {} else if p < 0xB0 {} else if p < 0xC0 {}
    else if p < 0xD0 {} else if p < 0xE0 {} else if p < 0xF0 {} else {}
  }

  lemma ByteLess(x: bv8, y: bv8)
    requires x as int < y as int
    ensures x < y
  {
  }

  /** The byte cast keeps the order of values below 256. */
  lemma ByteOrder(p: int, q: int)
    requires 0 <= p < q < 256
    ensures (p as bv8) < (q as bv8)
  {
    ByteOfInt(p);
    ByteOfInt(q);
    ByteLess(p as bv8, q as bv8);
  }

  lemma Pow256Six()
    ensures Pow256(6) == TwoTo48
  {
  }

  lemma Pow256Seven()
    ensures Pow256(7) == TwoTo56
  {
  }

  lemma Below48(x: nat)
    requires x < TwoTo48
    ensures x % TwoTo48 == x
  {
  }

  /** Bytes read back as the number they were cut from. */
  lemma {:induction false} ValueOfDigits(v: nat, n: nat)
    requires v < Pow256(n)
    ensures ValueOf(Digits(v, n)) == v
  {
    if n > 0 {
      var d := Digits(v, n);
      assert d[..n - 1] == Digits(v / 256, n - 1);
      ValueOfDigits(v / 256, n - 1);
      ByteOfInt(v % 256);
    }
  }

  lemma DivModByte(x: nat, b: int)
    requires 0 <= b < 256
    ensures (x * 256 + b) / 256 == x && (x * 256 + b) % 256 == b
  {
  }

  /** A byte string is the digits of the number it spells. */
  lemma {:induction false} DigitsOfValue(s: seq<bv8>)
    ensures ValueOf(s) < Pow256(|s|)
    ensures Digits(ValueOf(s), |s|) == s
  {
    if s != [] {
      var init, last := s[..|s| - 1], s[|s| - 1];
      DigitsOfValue(init);
      var v := ValueOf(s);
      ByteRoundTrip(last);
      DivModByte(ValueOf(init), last as int);
      assert s == init + [last];
    }
  }

  /**
   * The number arithmetic here and the 64-bit words of `rd48be`/`wr48be`
   * agree: the value `ValueOf` reads from six bytes, written back by
   * `Digits`, gives the bytes `wr48be` writes for the word `rd48be` reads.
   */
  lemma DigitsAgreeWithBe48(u: seq<bv8>)
    requires |u| >= 6
    ensures Digits(ValueOf(u[..6]), 6) == Be48(Rd48be(u)) == u[..6]
  {
    DigitsOfValue(u[..6]);
    Be48OfRd48be(u);
  }

  /** A common prefix and a smaller byte after it stay so when both sides are extended. */
  lemma LessAtExtend(a: seq<bv8>, b: seq<bv8>, i: nat, c: seq<bv8>, d: seq<bv8>)
    requires LessAt(a, b, i)
    ensures LessAt(a + c, b + d, i)
  {
    assert (a + c)[..i] == a[..i];
    assert (b + d)[..i] == b[..i];
  }

  /** ... and when a common prefix is put in front of both. */
  lemma LessAtShift(p: seq<bv8>, a: seq<bv8>, b: seq<bv8>, i: nat)
    requires LessAt(a, b, i)
    ensures LessAt(p + a, p + b, |p| + i)
  {
    assert (p + a)[..|p| + i] == p + a[..i];
    assert (p + b)[..|p| + i] == p + b[..i];
  }

  /**
   * Big-endian bytes are ordered as the numbers they spell: a smaller number
   * has the smaller byte at the first position `i` where the two differ.
   */
  lemma {:induction false} DigitsOrder(a: nat, b: nat, n: nat) returns (i: nat)
    requires a < b < Pow256(n)
    ensures i < n && LessAt(Digits(a, n), Digits(b, n), i)
  {
    var a', b' := a / 256, b / 256;
    if a' == b' {
      ByteOrder(a % 256, b % 256);
      i := n - 1;
      assert Digits(a, n)[..i] == Digits(a', n - 1);
      assert Digits(b, n)[..i] == Digits(b', n - 1);
    } else {
      i := DigitsOrder(a', b', n - 1);
      LessAtExtend(Digits(a', n - 1), Digits(b', n - 1), i, [(a % 256) as bv8], [(b % 256) as bv8]);
    }
  }

  /**
   * Bytes 6-15 of `uuidv7_build_from_suffix`: the version 7 over 4 random
   * bits, 8 random bits, the variant `10` over 6 random bits, then the last
   * 7 suffix bytes.
   */
  function Framed(suffix: seq<bv8>): (r: seq<bv8>)
    requires |suffix| == 10
    ensures |r| == 10
  {
    [0x70 | (suffix[0] & 0x0F), suffix[1], 0x80 | (suffix[2] & 0x3F)] + suffix[3..]
  }

  /** `uuidv7_build_from_suffix`: bytes 0-5 the timestamp `ms & 0xFFFFFFFFFFFF` big-endian, then `Framed`. */
  function FromSuffix(ms: nat, suffix: seq<bv8>): (u: Uuid)
    requires IsUint64(ms) && |suffix| == 10
  {
    Digits(ms % TwoTo48, 6) + Framed(suffix)
  }

  /** The built identifier is a UUIDv7 carrying `ms` modulo 2^48 and exactly the suffix's 74 random bits. */
  lemma FromSuffixLayout(ms: nat, suffix: seq<bv8>)
    requires IsUint64(ms) && |suffix| == 10
    ensures IsV7(FromSuffix(ms, suffix))
    ensures ValueOf(FromSuffix(ms, suffix)[..6]) == ms % TwoTo48
    ensures SipInput(FromSuffix(ms, suffix)) == [suffix[0] & 0x0F, suffix[1], suffix[2] & 0x3F] + suffix[3..]
  {
    var u := FromSuffix(ms, suffix);
    assert u[..6] == Digits(ms % TwoTo48, 6);
    Pow256Six();
    ValueOfDigits(ms % TwoTo48, 6);
    assert u[9..] == suffix[3..];
  }

  /** Stores `Digits(v, 6)` in `dst[0..6]`, the lowest byte first, and touches nothing else. */
  method StoreTimestamp(dst: array<bv8>, v: nat)
    requires dst.Length >= 6
    modifies dst
    ensures dst[..6] == Digits(v, 6)
    ensures dst[6..] == old(dst[6..])
  {
    var x := v;
    for j := 0 to 6
      invariant Digits(v, 6) == Digits(x, 6 - j) + dst[6 - j..6]
      invariant dst[6..] == old(dst[6..])
    {
      dst[5 - j] := (x % 256) as bv8;
      x := x / 256;
    }
  }

  /** `uuidv7_build_from_suffix` writing into `out`. */
  method BuildFromSuffix(ms: nat, suffix: seq<bv8>, out: array<bv8>)
    requires IsUint64(ms) && |suffix| == 10 && out.Length == 16
    modifies out
    ensures out[..] == FromSuffix(ms, suffix)
  {
    StoreTimestamp(out, ms % TwoTo48);
    out[6] := 0x70 | (suffix[0] & 0x0F);
    out[7] := suffix[1];
    out[8] := 0x80 | (suffix[2] & 0x3F);
    for i := 0 to 7
      invariant out[..6] == Digits(ms % TwoTo48, 6)
      invariant out[6..9] == [0x70 | (suffix[0] & 0x0F), suffix[1], 0x80 | (suffix[2] & 0x3F)]
      invariant out[9..9 + i] == suffix[3..3 + i]
    {
      out[9 + i] := suffix[3 + i];
    }
    assert out[9..16] == suffix[3..10];
    assert out[6..] == out[6..9] + out[9..16];
    assert out[..] == out[..6] + out[6..];
  }

  /** Suffixes that first differ in their first byte, within 4 bits. */
  lemma FramedOrderVersionByte(s: seq<bv8>, t: seq<bv8>)
    requires |s| == 10 && |t| == 10 && s[0] < t[0] < 16
    ensures LessAt(Framed(s), Framed(t), 0)
  {
    assert s[0] & 0x0F == s[0] && t[0] & 0x0F == t[0];
  }

  /** Suffixes that first differ in their third byte, within 6 bits. */
  lemma FramedOrderVariantByte(s: seq<bv8>, t: seq<bv8>)
    requires |s| == 10 && |t| == 10 && s[..2] == t[..2] && s[2] < t[2] < 64
    ensures LessAt(Framed(s), Framed(t), 2)
  {
    assert s[2] & 0x3F == s[2] && t[2] & 0x3F == t[2];
    assert s[0] == t[0] && s[1] == t[1];
    assert Framed(s)[..2] == Framed(t)[..2];
  }

  /** Suffixes that first differ in their second byte, which is copied unchanged. */
  lemma FramedOrderSecondByte(s: seq<bv8>, t: seq<bv8>)
    requires |s| == 10 && |t| == 10 && LessAt(s, t, 1)
    ensures LessAt(Framed(s), Framed(t), 1)
  {
    var fs, ft := Framed(s), Framed(t);
    assert s[0] == s[..1][0] == t[..1][0] == t[0];
    assert fs[0] == ft[0];
    assert fs[..1] == [fs[0]] && ft[..1] == [ft[0]];
  }

  /** Suffixes that first differ at `i` >= 3, in the bytes copied unchanged. */
  lemma FramedOrderTail(s: seq<bv8>, t: seq<bv8>, i: nat)
    requires |s| == 10 && |t| == 10 && i >= 3 && LessAt(s, t, i)
    ensures LessAt(Framed(s), Framed(t), i)
  {
    assert s[..3] == t[..3] by {
      assert s[..3] == s[..i][..3] && t[..3] == t[..i][..3];
    }
    assert s[3..i] == t[3..i] by {
      assert s[3..i] == s[..i][3..] && t[3..i] == t[..i][3..];
    }
    var ps, pt := Framed(s)[..i], Framed(t)[..i];
    assert ps == Framed(s)[..3] + s[3..i];
    assert pt == Framed(t)[..3] + t[3..i];
    assert Framed(s)[..3] == Framed(t)[..3] by {
      assert s[0] == t[0] && s[1] == t[1] && s[2] == t[2];
    }
  }

  /** Equal timestamps: the suffix with the smaller byte at `i` gives the smaller identifier. */
  lemma FromSuffixOrder(ms: nat, s: seq<bv8>, t: seq<bv8>, i: nat)
    requires IsUint64(ms) && |s| == 10 && |t| == 10
    requires s[0] < 16 && t[0] < 16 && s[2] < 64 && t[2] < 64
    requires LessAt(s, t, i)
    ensures LessAt(FromSuffix(ms, s), FromSuffix(ms, t), 6 + i)
  {
    if i == 0 {
      FramedOrderVersionByte(s, t);
    } else if i == 2 {
      FramedOrderVariantByte(s, t);
    } else if i == 1 {
      FramedOrderSecondByte(s, t);
    } else {
      FramedOrderTail(s, t, i);
    }
    LessAtShift(Digits(ms % TwoTo48, 6), Framed(s), Framed(t), i);
  }

  /** Identifiers whose first six bytes decide the order, whatever follows. */
  lemma TimestampDecides(p: seq<bv8>, q: seq<bv8>, x: seq<bv8>, y: seq<bv8>, i: nat)
    requires |p| == 6 && |q| == 6 && |x| == 10 && |y| == 10 && LessAt(p, q, i)
    ensures Cmp16(q + y, p + x) == 1
  {
    LessAtExtend(p, q, i, x, y);
    CompareAtFirstDifference(q + y, p + x, i);
  }

  /** A later millisecond below 2^48 gives a larger identifier, whatever the random bits. */
  lemma NewMsIncreases(a: nat, b: nat, s: seq<bv8>, t: seq<bv8>)
    requires a < b < TwoTo48 && |s| == 10 && |t| == 10
    ensures Cmp16(FromSuffix(b, t), FromSuffix(a, s)) == 1
  {
    Pow256Six();
    var i := DigitsOrder(a, b, 6);
    TimestampDecides(Digits(a, 6), Digits(b, 6), Framed(s), Framed(t), i);
    Below48(a);
    Below48(b);
    assert FromSuffix(a, s) == Digits(a, 6) + Framed(s);
    assert FromSuffix(b, t) == Digits(b, 6) + Framed(t);
  }

  /** `gen_state_ctr++` on a `uint32`: wraps to 0 after 2^32 - 1. */
  function Inc32(c: nat): (r: nat)
    requires c < TwoTo32
    ensures r < TwoTo32
    ensures c < TwoTo32 - 1 ==> r == c + 1
    ensures r == 0 <==> c == TwoTo32 - 1
  {
    (c + 1) % TwoTo32
  }

  /** The 74-bit value `(hi << 32) | ctr` of the generator. */
  function Combined(hi: nat, ctr: nat): (v: nat)
    requires hi < TwoTo42 && ctr < TwoTo32
    ensures v < TwoTo74
  {
    hi * TwoTo32 + ctr
  }

  /**
   * The first three suffix bytes, from the top 18 bits `q = v >> 56`:
   * `(v >> 70) & 0x0F`, `(v >> 62) & 0xFF` and `(v >> 56) & 0x3F`.
   */
  function TopBytes(q: nat): (r: seq<bv8>)
    ensures |r| == 3
  {
    [(q / 0x4000 % 0x10) as bv8, (q / 0x40 % 0x100) as bv8, (q % 0x40) as bv8]
  }

  /** The packing of `uuid47_generate_monotonic`: 4, 8 and 6 top bits, then 7 whole bytes. */
  function Pack(v: nat): (s: seq<bv8>)
    requires v < TwoTo74
    ensures |s| == 10
  {
    TopBytes(v / TwoTo56) + Digits(v % TwoTo56, 7)
  }

  /** The packed bytes fit the slots they are masked into. */
  lemma PackFits(v: nat)
    requires v < TwoTo74
    ensures Pack(v)[0] < 16 && Pack(v)[2] < 64
  {
    var q := v / TwoTo56;
    ByteOrder(q / 0x4000 % 0x10, 16);
    ByteOrder(q % 0x40, 64);
  }

  lemma DivDiv(p: nat)
    ensures p / 0x4000 == (p / 0x40) / 0x100
  {
  }

  /** Values that agree above their low 6 bits are ordered by the third byte. */
  lemma TopOrderLow(p: nat, q: nat)
    requires p < q && p / 0x40 == q / 0x40
    ensures LessAt(TopBytes(p), TopBytes(q), 2)
  {
    DivDiv(p);
    DivDiv(q);
    ByteOrder(p % 0x40, q % 0x40);
    assert TopBytes(p)[..2] == TopBytes(q)[..2];
  }

  /** Values that agree above bit 14 but not above bit 6 are ordered by the second byte. */
  lemma TopOrderMiddle(p: nat, q: nat)
    requires p < q && p / 0x40 != q / 0x40 && p / 0x4000 == q / 0x4000
    ensures LessAt(TopBytes(p), TopBytes(q), 1)
  {
    DivDiv(p);
    DivDiv(q);
    ByteOrder(p / 0x40 % 0x100, q / 0x40 % 0x100);
    assert TopBytes(p)[..1] == TopBytes(q)[..1];
  }

  /** Values below 2^18 that differ above bit 14 are ordered by the first byte. */
  lemma TopOrderHigh(p: nat, q: nat)
    requires p < q < 0x4_0000 && p / 0x4000 != q / 0x4000
    ensures LessAt(TopBytes(p), TopBytes(q), 0)
  {
    ByteOrder(p / 0x4000 % 0x10, q / 0x4000 % 0x10);
  }

  /** The top 18 bits are laid out in order. */
  lemma TopOrder(p: nat, q: nat) returns (i: nat)
    requires p < q < 0x4_0000
    ensures i < 3 && LessAt(TopBytes(p), TopBytes(q), i)
  {
    if p / 0x40 == q / 0x40 {
      TopOrderLow(p, q);
      i := 2;
    } else if p / 0x4000 == q / 0x4000 {
      TopOrderMiddle(p, q);
      i := 1;
    } else {
      TopOrderHigh(p, q);
      i := 0;
    }
  }

  /** A larger 74-bit value is packed into a suffix with the smaller byte first where they differ. */
  lemma PackOrder(v: nat, w: nat) returns (i: nat)
    requires v < w < TwoTo74
    ensures i < 10 && LessAt(Pack(v), Pack(w), i)
  {
    var qv, qw := v / TwoTo56, w / TwoTo56;
    if qv == qw {
      Pow256Seven();
      var j := DigitsOrder(v % TwoTo56, w % TwoTo56, 7);
      LessAtShift(TopBytes(qv), Digits(v % TwoTo56, 7), Digits(w % TwoTo56, 7), j);
      i := 3 + j;
    } else {
      i := TopOrder(qv, qw);
      LessAtExtend(TopBytes(qv), TopBytes(qw), i, Digits(v % TwoTo56, 7), Digits(w % TwoTo56, 7));
    }
  }

  /** Within one millisecond a larger `(hi << 32) | ctr` gives a larger identifier. */
  lemma PackIncreases(ms: nat, v: nat, w: nat)
    requires IsUint64(ms) && v < w < TwoTo74
    ensures Cmp16(FromSuffix(ms, Pack(w)), FromSuffix(ms, Pack(v))) == 1
  {
    PackFits(v);
    PackFits(w);
    var i := PackOrder(v, w);
    FromSuffixOrder(ms, Pack(v), Pack(w), i);
  }

  /** `rv & ((1 << 42) - 1)` for the big-endian `rv` of eight random bytes. */
  function RandHi(rand: seq<bv8>): (hi: nat)
    requires |rand| == 8
    ensures hi < TwoTo42
  {
    ValueOf(rand) % TwoTo42
  }

  /** The masking `uuid47_generate` and `uuid47_generate_at` apply to ten random bytes. */
  function RandomSuffix(rand: seq<bv8>): (s: seq<bv8>)
    requires |rand| == 10
    ensures |s| == 10 && s[0] < 16 && s[2] < 64
  {
    [rand[0] & 0x0F, rand[1], rand[2] & 0x3F] + rand[3..]
  }

  /** `uuid47_generate` on a clock reading `pgUs` and ten random bytes. */
  function Generate(pgUs: int, rand: seq<bv8>): (u: Uuid)
    requires ShiftFits(pgUs) && |rand| == 10
    ensures IsV7(u) && ValueOf(u[..6]) == CurrentUnixMs(pgUs) % TwoTo48
    ensures SipInput(u) == RandomSuffix(rand)
  {
    var s := RandomSuffix(rand);
    FromSuffixLayout(CurrentUnixMs(pgUs), s);
    assert s[0] & 0x0F == s[0] && s[2] & 0x3F == s[2];
    FromSuffix(CurrentUnixMs(pgUs), s)
  }

  /** `uuid47_generate_at`: the same for a given timestamp. */
  function GenerateAt(ts: int, rand: seq<bv8>): (u: Uuid)
    requires ShiftFits(ts) && |rand| == 10
  {
    FromSuffix(TimestamptzToUnixMs(ts), RandomSuffix(rand))
  }

  /** `uuid47_timestamp`: the 48-bit timestamp field as a `TimestampTz`. */
  function Timestamp(u: Uuid): (ts: int)
    ensures IsInt64(ts) && ts + EpochOffsetUs == ValueOf(u[..6]) * 1000
  {
    DigitsOfValue(u[..6]);
    Pow256Six();
    TimestampFieldConverts(ValueOf(u[..6]));
    UnixMsToTimestamptz(ValueOf(u[..6]))
  }

  /**
   * A UUIDv7 generated for a timestamp carries it to the millisecond: reading
   * its timestamp back gives the instant truncated to whole milliseconds, and
   * its random bits are the masked random bytes.
   */
  lemma GenerateAtTimestamp(ts: int, rand: seq<bv8>)
    requires ShiftFits(ts) && |rand| == 10 && ts + EpochOffsetUs >= 0
    requires TimestamptzToUnixMs(ts) < TwoTo48
    ensures IsV7(GenerateAt(ts, rand))
    ensures Timestamp(GenerateAt(ts, rand)) <= ts < Timestamp(GenerateAt(ts, rand)) + 1000
    ensures SipInput(GenerateAt(ts, rand)) == RandomSuffix(rand)
  {
    var s := RandomSuffix(rand);
    FromSuffixLayout(TimestamptzToUnixMs(ts), s);
    assert s[0] & 0x0F == s[0] && s[2] & 0x3F == s[2];
  }

  /** The index of the first clock reading past `last`: where the wait loop stops. */
  function FirstAfter(readings: seq<nat>, last: nat): (k: nat)
    requires exists j | 0 <= j < |readings| :: readings[j] > last
    ensures k < |readings| && readings[k] > last
    ensures forall j | 0 <= j < k :: readings[j] <= last
  {
    if readings[0] > last then 0
    else
      assert exists j | 0 <= j < |readings[1..]| :: readings[1..][j] > last by {
        var j :| 0 <= j < |readings| && readings[j] > last;
        assert readings[1..][j - 1] == readings[j];
      }
      1 + FirstAfter(readings[1..], last)
  }

  /**
   * The `do ... while (ms <= gen_state_last_ms)` loop after a counter wrap:
   * the readings of `current_unix_ms()` it takes, one per `pg_usleep(100)`.
   */
  method WaitPast(readings: seq<nat>, last: nat) returns (ms: nat)
    requires exists j | 0 <= j < |readings| :: readings[j] > last
    ensures ms == readings[FirstAfter(readings, last)]
  {
    var k := 0;
    ms := readings[k];
    while ms <= last
      invariant k < |readings| && ms == readings[k]
      invariant forall j | 0 <= j < k :: readings[j] <= last
      invariant exists j | k <= j < |readings| :: readings[j] > last
      decreases |readings| - k
    {
      k := k + 1;
      ms := readings[k];
    }
    assert k == FirstAfter(readings, last);
  }

  /**
   * The state of `uuid47_generate_monotonic`: the static variables
   * `gen_state_last_ms`, `gen_state_ctr` and `gen_state_hi` of one backend.
   */
  class MonotonicGenerator {
    var lastMs: nat
    var ctr: nat
    var hi: nat

    /** The C types hold the values: `uint64_t`, `uint32` and 42 random bits. */
    predicate Valid()
      reads this
    {
      IsUint64(lastMs) && ctr < TwoTo32 && hi < TwoTo42
    }

    /** The identifier the state spells: `lastMs`, then `(hi << 32) | ctr` packed. */
    function Current(): (u: Uuid)
      requires Valid()
      reads this
    {
      FromSuffix(lastMs, Pack(Combined(hi, ctr)))
    }

    /** The three statics start at zero. */
    constructor ()
      ensures Valid() && lastMs == 0 && ctr == 0 && hi == 0
    {
      lastMs, ctr, hi := 0, 0, 0;
    }

    /**
     * One call: `now` is the first clock reading, `later` the readings of the
     * wait loop, `rand` the eight bytes of `fill_rand(r, 8)`.  The emitted
     * identifier is always the one the new state spells.
     */
    method Next(now: nat, later: seq<nat>, rand: seq<bv8>) returns (u: Uuid)
      requires Valid() && IsUint64(now) && |rand| == 8
      requires forall j | 0 <= j < |later| :: IsUint64(later[j])
      requires now == lastMs && ctr == TwoTo32 - 1 ==> exists j | 0 <= j < |later| :: later[j] > lastMs
      modifies this
      ensures Valid() && u == Current()
      ensures now > old(lastMs) ==> lastMs == now && ctr == 0 && hi == RandHi(rand)
      ensures now < old(lastMs) ==> lastMs == old(lastMs) && ctr == old(ctr) && hi == old(hi)
      ensures now == old(lastMs) && old(ctr) < TwoTo32 - 1 ==>
                lastMs == now && ctr == old(ctr) + 1 && hi == old(hi)
      ensures now == old(lastMs) && old(ctr) == TwoTo32 - 1 ==>
                lastMs == later[FirstAfter(later, old(lastMs))] && ctr == 0 && hi == RandHi(rand)
      ensures Step(old(lastMs), old(ctr), old(hi), now, lastMs, ctr, hi)
    {
      var ms := now;
      if ms > lastMs {
        lastMs := ms;
        ctr := 0;
        hi := RandHi(rand);
      } else if ms < lastMs {
        ms := lastMs;
      } else {
        ctr := Inc32(ctr);
        if ctr == 0 {
          ms := WaitPast(later, lastMs);
          lastMs := ms;
          ctr := 0;
          hi := RandHi(rand);
        }
      }
      var suffix := Pack(Combined(hi, ctr));
      var out := new bv8[16];
      BuildFromSuffix(ms, suffix, out);
      u := out[..];
    }
  }

  /**
   * What a call of `Next` does to the state, as a relation between the state
   * before (`ms0`, `c0`, `h0`) and after (`ms1`, `c1`, `h1`) for a first clock
   * reading `now`.
   */
  predicate Step(ms0: nat, c0: nat, h0: nat, now: nat, ms1: nat, c1: nat, h1: nat)
  {
    if now > ms0 then ms1 == now && c1 == 0
    else if now < ms0 then ms1 == ms0 && c1 == c0 && h1 == h0
    else if c0 < TwoTo32 - 1 then ms1 == ms0 && c1 == c0 + 1 && h1 == h0
    else ms1 > ms0 && c1 == 0
  }

  /**
   * The generator's promises for every step: the millisecond never goes back,
   * the counter restarts exactly when a later millisecond is adopted, and the
   * new identifier is larger than the previous one, except after a backward
   * clock, where it is the previous one again.
   */
  lemma StepProperties(ms0: nat, c0: nat, h0: nat, now: nat, ms1: nat, c1: nat, h1: nat)
    requires IsUint64(ms0) && c0 < TwoTo32 && h0 < TwoTo42
    requires IsUint64(ms1) && c1 < TwoTo32 && h1 < TwoTo42
    requires Step(ms0, c0, h0, now, ms1, c1, h1)
    ensures ms1 >= ms0
    ensures ms1 > ms0 ==> c1 == 0
    ensures ms1 == ms0 ==> h1 == h0 && (c1 == c0 || c1 == c0 + 1)
    ensures now < ms0 ==> FromSuffix(ms1, Pack(Combined(h1, c1))) == FromSuffix(ms0, Pack(Combined(h0, c0)))
    ensures now >= ms0 && ms1 < TwoTo48 ==>
              Cmp16(FromSuffix(ms1, Pack(Combined(h1, c1))), FromSuffix(ms0, Pack(Combined(h0, c0)))) == 1
  {
    if now >= ms0 && ms1 < TwoTo48 {
      if ms1 > ms0 {
        NewMsIncreases(ms0, ms1, Pack(Combined(h0, c0)), Pack(Combined(h1, c1)));
      } else {
        PackIncreases(ms0, Combined(h0, c0), Combined(h1, c1));
      }
    }
  }
}
