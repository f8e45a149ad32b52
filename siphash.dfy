/**
 * SipHash-2-4 as `siphash24` in uuidv47.h computes it: the specification is a
 * composition of small functions (one round, one compression of a message
 * word, the final block, the finalization), and `SipHash24Run` is the
 * imperative procedure with the loops of the C code, proved equal to it.
 */
module SipHash {
  import opened Bytes

  /** SipHash-2-4: two rounds per message word, four at the end. */
  const CompressionRounds: nat := 2
  const FinalizationRounds: nat := 4

  /** The four 64-bit state words v0..v3. */
  datatype SipState = SipState(v0: bv64, v1: bv64, v2: bv64, v3: bv64)

  /** One SipRound: the fourteen add-rotate-xor steps the C code repeats inline. */
  function SipRound(s: SipState): (r: SipState)
  {
    var v0 := s.v0 + s.v1;
    var v2 := s.v2 + s.v3;
    var v1 := s.v1.RotateLeft(13);
    var v3 := s.v3.RotateLeft(16);
    var v1 := v1 ^ v0;
    var v3 := v3 ^ v2;
    var v0 := v0.RotateLeft(32);
    var v2 := v2 + v1;
    var v0 := v0 + v3;
    var v1 := v1.RotateLeft(17);
    var v3 := v3.RotateLeft(21);
    var v1 := v1 ^ v2;
    var v3 := v3 ^ v0;
    var v2 := v2.RotateLeft(32);
    SipState(v0, v1, v2, v3)
  }

  /** `n` SipRounds in a row. */
  function Rounds(s: SipState, n: nat): SipState
  {
    if n == 0 then s else SipRound(Rounds(s, n - 1))
  }

  /** The key XORed into the four initialisation constants. */
  function Init(k0: bv64, k1: bv64): SipState
  {
    SipState(0x736f6d6570736575 ^ k0, 0x646f72616e646f6d ^ k1,
             0x6c7967656e657261 ^ k0, 0x7465646279746573 ^ k1)
  }

  /** A message word XORed into v3 before the compression rounds. */
  function Injected(s: SipState, m: bv64): SipState
  {
    s.(v3 := s.v3 ^ m)
  }

  /** The same word XORed into v0 after them. */
  function Absorbed(s: SipState, m: bv64): SipState
  {
    s.(v0 := s.v0 ^ m)
  }

  /** One message word through two compression rounds. */
  function Compress(s: SipState, m: bv64): SipState
  {
    Absorbed(Rounds(Injected(s, m), CompressionRounds), m)
  }

  /** The state after the first `n` little-endian words of `msg`. */
  function Absorb(s: SipState, msg: seq<bv8>, n: nat): SipState
    requires 8 * n <= |msg|
  {
    if n == 0 then s else Compress(Absorb(s, msg, n - 1), Rd64le(msg[8 * (n - 1)..]))
  }

  /** The byte `x` placed at byte position `j` of a little-endian word. */
  function Lane(x: bv8, j: nat): bv64
    requires j < 8
  {
    var w := x as bv64;
    match j
    case 0 => w
    case 1 => w << 8
    case 2 => w << 16
    case 3 => w << 24
    case 4 => w << 32
    case 5 => w << 40
    case 6 => w << 48
    case 7 => w << 56
  }

  /** The message length modulo 256, as the C shift `inlen << 56` keeps it. */
  function LengthByte(n: nat): bv8
  {
    (n % 256) as bv8
  }

  /** The length byte in the top lane of a word. */
  function LengthWord(n: nat): bv64
  {
    Lane(LengthByte(n), 7)
  }

  /** The tail bytes from position `j` on, each in its little-endian lane. */
  function TailFrom(t: seq<bv8>, j: nat): bv64
    requires |t| < 8
    decreases |t| - j
  {
    if j >= |t| then 0 else Lane(t[j], j) | TailFrom(t, j + 1)
  }

  /** Where the whole 8-byte words of a message of length `n` end. */
  function BlockEnd(n: nat): (e: nat)
    ensures e % 8 == 0 && e <= n < e + 8
  {
    n - n % 8
  }

  /**
   * The block end exactly as uuidv47.h computes it, `inlen & ~7u`: the
   * constant `~7u` is a 32-bit `unsigned`, so after its conversion to the
   * 64-bit `size_t` its upper half is zero and so is the result's.
   */
  function BlockEndAsWritten(inlen: bv64): (e: bv64)
    ensures e < 0x1_0000_0000
  {
    inlen & (0xFFFF_FFF8 as bv64)
  }

  /** For a message of 2^32 + 8 bytes the C expression stops after one block, not 2^29 + 1. */
  lemma BlockEndAsWrittenTruncates()
    ensures BlockEndAsWritten(0x1_0000_0008) == 8
    ensures BlockEnd(0x1_0000_0008) == 0x1_0000_0008
  {
  }

  /** The mask `& ~7u` on a 64-bit length: the length modulo 2^32, rounded down to whole words. */
  lemma BlockEndAsWrittenArith(inlen: bv64)
    ensures BlockEndAsWritten(inlen) == inlen % 0x1_0000_0000 - inlen % 8
  {
  }

  /**
   * `BlockEndAsWritten` on the length as a number: where the block loop of
   * uuidv47.h stops, which is `BlockEnd` only below 2^32 bytes.
   */
  function TruncatedBlockEnd(n: nat): (e: nat)
    ensures e % 8 == 0 && e + n % 8 == n % 0x1_0000_0000
  {
    CutLength(n);
    n % 0x1_0000_0000 - n % 8
  }

  /** The final word: the 0..7 tail bytes in the low lanes, the length modulo 256 on top. */
  function LastBlock(msg: seq<bv8>): bv64
  {
    LengthWord(|msg|) | TailFrom(msg[BlockEnd(|msg|)..], 0)
  }

  /** The final word as uuidv47.h builds it: the `inlen & 7` bytes from `TruncatedBlockEnd` on. */
  function LastBlockAsWritten(msg: seq<bv8>): bv64
  {
    var e := TruncatedBlockEnd(|msg|);
    LengthWord(|msg|) | TailFrom(msg[e..e + |msg| % 8], 0)
  }

  /** The four words XORed together: the 64-bit output. */
  function Fold(s: SipState): bv64
  {
    s.v0 ^ s.v1 ^ s.v2 ^ s.v3
  }

  /** v2 ^= 0xff, four rounds, and the four words folded together. */
  function Finalize(s: SipState): bv64
  {
    Fold(Rounds(s.(v2 := s.v2 ^ 0xff), FinalizationRounds))
  }

  /** SipHash-2-4 of `msg` under the 128-bit key (k0, k1). */
  function SipHash24(msg: seq<bv8>, k0: bv64, k1: bv64): bv64
  {
    Finalize(Compress(Absorb(Init(k0, k1), msg, |msg| / 8), LastBlock(msg)))
  }

  /**
   * `siphash24` exactly as uuidv47.h writes it: the block loop stops at
   * `TruncatedBlockEnd`, the switch reads the `inlen & 7` bytes from there,
   * and the length byte is still the true length modulo 256.
   */
  function SipHash24AsWritten(msg: seq<bv8>, k0: bv64, k1: bv64): bv64
  {
    Finalize(Compress(Absorb(Init(k0, k1), msg, TruncatedBlockEnd(|msg|) / 8), LastBlockAsWritten(msg)))
  }

  /** The inner `for (i = 0; i < n; i++)` loop of SipRounds. */
  method ApplyRounds(s0: SipState, n: nat) returns (s: SipState)
    ensures s == Rounds(s0, n)
  {
    s := s0;
    for i := 0 to n
      invariant s == Rounds(s0, i)
    {
      s := SipRound(s);
    }
  }

  /** `v3 ^= m`, two rounds, `v0 ^= m`: one pass of the block loop body. */
  method CompressBlock(s0: SipState, m: bv64) returns (s: SipState)
    ensures s == Compress(s0, m)
  {
    s := Injected(s0, m);
    s := ApplyRounds(s, CompressionRounds);
    s := Absorbed(s, m);
  }

  /** `v2 ^= 0xff`, four rounds, and the folded result. */
  method Finalization(s0: SipState) returns (h: bv64)
    ensures h == Finalize(s0)
  {
    var s := s0.(v2 := s0.v2 ^ 0xff);
    s := ApplyRounds(s, FinalizationRounds);
    h := Fold(s);
  }

  /**
   * The fall-through `switch (inlen & 7)`: tail bytes ORed in from the last
   * one down, then the length byte on top.
   */
  method FinalWord(input: seq<bv8>) returns (b: bv64)
    ensures b == LastBlock(input)
  {
    var end := |input| - |input| % 8;
    var t: bv64 := 0;
    var j := |input| % 8;
    while j > 0
      invariant 0 <= j <= |input| % 8
      invariant t == TailFrom(input[end..], j)
    {
      j := j - 1;
      t := Lane(input[end + j], j) | t;
    }
    b := LengthWord(|input|) | t;
  }

  /** `siphash24`: the block loop, the final word and the finalization. */
  method Hash(input: seq<bv8>, k0: bv64, k1: bv64) returns (h: bv64)
    ensures h == SipHash24(input, k0, k1)
  {
    var s := Init(k0, k1);
    for n := 0 to |input| / 8
      invariant s == Absorb(Init(k0, k1), input, n)
    {
      var m := Rd64le(input[8 * n..]);
      s := CompressBlock(s, m);
    }
    var b := FinalWord(input);
    s := CompressBlock(s, b);
    h := Finalization(s);
  }

  /** One step of `TailFrom`. */
  lemma Unfold(t: seq<bv8>, j: nat)
    requires |t| < 8 && j < |t|
    ensures TailFrom(t, j) == Lane(t[j], j) | TailFrom(t, j + 1)
  {
  }
  lemma Tail0(t: seq<bv8>)
    requires |t| == 0
    ensures TailFrom(t, 0) == 0
  {
  }

  lemma Word0(z: bv8)
    ensures Le64(Lane(z, 7) | (0)) == [0, 0, 0, 0, 0, 0, 0, z]
  {
  }

  lemma Pad0(t: seq<bv8>, z: bv8)
    requires |t| == 0
    ensures t + seq(7, _ => 0) + [z] == [0, 0, 0, 0, 0, 0, 0, z]
  {
  }

  lemma Layout0(msg: seq<bv8>)
    requires |msg| % 8 == 0
    ensures Le64(LastBlock(msg)) ==
      msg[BlockEnd(|msg|)..] + seq(7 - |msg| % 8, _ => 0) + [LengthByte(|msg|)]
  {
    var t := msg[BlockEnd(|msg|)..];
    var z := LengthByte(|msg|);
    Tail0(t);
    Word0(z);
    Pad0(t, z);
  }

  lemma Tail1(t: seq<bv8>)
    requires |t| == 1
    ensures TailFrom(t, 0) == Lane(t[0], 0) | 0
  {
    Unfold(t, 0);
  }

  lemma Word1(a: bv8, z: bv8)
    ensures Le64(Lane(z, 7) | (Lane(a, 0) | 0)) == [a, 0, 0, 0, 0, 0, 0, z]
  {
  }

  lemma Pad1(t: seq<bv8>, z: bv8)
    requires |t| == 1
    ensures t + seq(6, _ => 0) + [z] == [t[0], 0, 0, 0, 0, 0, 0, z]
  {
  }

  lemma Layout1(msg: seq<bv8>)
    requires |msg| % 8 == 1
    ensures Le64(LastBlock(msg)) ==
      msg[BlockEnd(|msg|)..] + seq(7 - |msg| % 8, _ => 0) + [LengthByte(|msg|)]
  {
    var t := msg[BlockEnd(|msg|)..];
    var z := LengthByte(|msg|);
    Tail1(t);
    Word1(t[0], z);
    Pad1(t, z);
  }

  lemma Tail2(t: seq<bv8>)
    requires |t| == 2
    ensures TailFrom(t, 0) == Lane(t[0], 0) | (Lane(t[1], 1) | 0)
  {
    Unfold(t, 0);
    Unfold(t, 1);
  }

  lemma Word2(a: bv8, b: bv8, z: bv8)
    ensures Le64(Lane(z, 7) | (Lane(a, 0) | (Lane(b, 1) | 0))) == [a, b, 0, 0, 0, 0, 0, z]
  {
  }

  lemma Pad2(t: seq<bv8>, z: bv8)
    requires |t| == 2
    ensures t + seq(5, _ => 0) + [z] == [t[0], t[1], 0, 0, 0, 0, 0, z]
  {
  }

  lemma Layout2(msg: seq<bv8>)
    requires |msg| % 8 == 2
    ensures Le64(LastBlock(msg)) ==
      msg[BlockEnd(|msg|)..] + seq(7 - |msg| % 8, _ => 0) + [LengthByte(|msg|)]
  {
    var t := msg[BlockEnd(|msg|)..];
    var z := LengthByte(|msg|);
    Tail2(t);
    Word2(t[0], t[1], z);
    Pad2(t, z);
  }

  lemma Tail3(t: seq<bv8>)
    requires |t| == 3
    ensures TailFrom(t, 0) == Lane(t[0], 0) | (Lane(t[1], 1) | (Lane(t[2], 2) | 0))
  {
    Unfold(t, 0);
    Unfold(t, 1);
    Unfold(t, 2);
  }

  lemma Word3(a: bv8, b: bv8, c: bv8, z: bv8)
    ensures Le64(Lane(z, 7) | (Lane(a, 0) | (Lane(b, 1) | (Lane(c, 2) | 0)))) == [a, b, c, 0, 0, 0, 0, z]
  {
  }

  lemma Pad3(t: seq<bv8>, z: bv8)
    requires |t| == 3
    ensures t + seq(4, _ => 0) + [z] == [t[0], t[1], t[2], 0, 0, 0, 0, z]
  {
  }

  lemma Layout3(msg: seq<bv8>)
    requires |msg| % 8 == 3
    ensures Le64(LastBlock(msg)) ==
      msg[BlockEnd(|msg|)..] + seq(7 - |msg| % 8, _ => 0) + [LengthByte(|msg|)]
  {
    var t := msg[BlockEnd(|msg|)..];
    var z := LengthByte(|msg|);
    Tail3(t);
    Word3(t[0], t[1], t[2], z);
    Pad3(t, z);
  }

  lemma Tail4(t: seq<bv8>)
    requires |t| == 4
    ensures TailFrom(t, 0) == Lane(t[0], 0) | (Lane(t[1], 1) | (Lane(t[2], 2) | (Lane(t[3], 3) | 0)))
  {
    Unfold(t, 0);
    Unfold(t, 1);
    Unfold(t, 2);
    Unfold(t, 3);
  }

  lemma Word4(a: bv8, b: bv8, c: bv8, d: bv8, z: bv8)
    ensures Le64(Lane(z, 7) | (Lane(a, 0) | (Lane(b, 1) | (Lane(c, 2) | (Lane(d, 3) | 0))))) == [a, b, c, d, 0, 0, 0, z]
  {
  }

  lemma Pad4(t: seq<bv8>, z: bv8)
    requires |t| == 4
    ensures t + seq(3, _ => 0) + [z] == [t[0], t[1], t[2], t[3], 0, 0, 0, z]
  {
  }

  lemma Layout4(msg: seq<bv8>)
    requires |msg| % 8 == 4
    ensures Le64(LastBlock(msg)) ==
      msg[BlockEnd(|msg|)..] + seq(7 - |msg| % 8, _ => 0) + [LengthByte(|msg|)]
  {
    var t := msg[BlockEnd(|msg|)..];
    var z := LengthByte(|msg|);
    Tail4(t);
    Word4(t[0], t[1], t[2], t[3], z);
    Pad4(t, z);
  }

  lemma Tail5(t: seq<bv8>)
    requires |t| == 5
    ensures TailFrom(t, 0) == Lane(t[0], 0) | (Lane(t[1], 1) | (Lane(t[2], 2) | (Lane(t[3], 3) | (Lane(t[4], 4) | 0))))
  {
    Unfold(t, 0);
    Unfold(t, 1);
    Unfold(t, 2);
    Unfold(t, 3);
    Unfold(t, 4);
  }

  lemma Word5(a: bv8, b: bv8, c: bv8, d: bv8, e: bv8, z: bv8)
    ensures Le64(Lane(z, 7) | (Lane(a, 0) | (Lane(b, 1) | (Lane(c, 2) | (Lane(d, 3) | (Lane(e, 4) | 0)))))) == [a, b, c, d, e, 0, 0, z]
  {
  }

  lemma Pad5(t: seq<bv8>, z: bv8)
    requires |t| == 5
    ensures t + seq(2, _ => 0) + [z] == [t[0], t[1], t[2], t[3], t[4], 0, 0, z]
  {
  }

  lemma Layout5(msg: seq<bv8>)
    requires |msg| % 8 == 5
    ensures Le64(LastBlock(msg)) ==
      msg[BlockEnd(|msg|)..] + seq(7 - |msg| % 8, _ => 0) + [LengthByte(|msg|)]
  {
    var t := msg[BlockEnd(|msg|)..];
    var z := LengthByte(|msg|);
    Tail5(t);
    Word5(t[0], t[1], t[2], t[3], t[4], z);
    Pad5(t, z);
  }

  lemma Tail6(t: seq<bv8>)
    requires |t| == 6
    ensures TailFrom(t, 0) == Lane(t[0], 0) | (Lane(t[1], 1) | (Lane(t[2], 2) | (Lane(t[3], 3) | (Lane(t[4], 4) | (Lane(t[5], 5) | 0)))))
  {
    Unfold(t, 0);
    Unfold(t, 1);
    Unfold(t, 2);
    Unfold(t, 3);
    Unfold(t, 4);
    Unfold(t, 5);
  }

  lemma Word6(a: bv8, b: bv8, c: bv8, d: bv8, e: bv8, f: bv8, z: bv8)
    ensures Le64(Lane(z, 7) | (Lane(a, 0) | (Lane(b, 1) | (Lane(c, 2) | (Lane(d, 3) | (Lane(e, 4) | (Lane(f, 5) | 0))))))) == [a, b, c, d, e, f, 0, z]
  {
  }

  lemma Pad6(t: seq<bv8>, z: bv8)
    requires |t| == 6
    ensures t + seq(1, _ => 0) + [z] == [t[0], t[1], t[2], t[3], t[4], t[5], 0, z]
  {
  }

  lemma Layout6(msg: seq<bv8>)
    requires |msg| % 8 == 6
    ensures Le64(LastBlock(msg)) ==
      msg[BlockEnd(|msg|)..] + seq(7 - |msg| % 8, _ => 0) + [LengthByte(|msg|)]
  {
    var t := msg[BlockEnd(|msg|)..];
    var z := LengthByte(|msg|);
    Tail6(t);
    Word6(t[0], t[1], t[2], t[3], t[4], t[5], z);
    Pad6(t, z);
  }

  lemma Tail7(t: seq<bv8>)
    requires |t| == 7
    ensures TailFrom(t, 0) == Lane(t[0], 0) | (Lane(t[1], 1) | (Lane(t[2], 2) | (Lane(t[3], 3) | (Lane(t[4], 4) | (Lane(t[5], 5) | (Lane(t[6], 6) | 0))))))
  {
    Unfold(t, 0);
    Unfold(t, 1);
    Unfold(t, 2);
    Unfold(t, 3);
    Unfold(t, 4);
    Unfold(t, 5);
    Unfold(t, 6);
  }

  lemma Word7(a: bv8, b: bv8, c: bv8, d: bv8, e: bv8, f: bv8, g: bv8, z: bv8)
    ensures Le64(Lane(z, 7) | (Lane(a, 0) | (Lane(b, 1) | (Lane(c, 2) | (Lane(d, 3) | (Lane(e, 4) | (Lane(f, 5) | (Lane(g, 6) | 0)))))))) == [a, b, c, d, e, f, g, z]
  {
  }

  lemma Pad7(t: seq<bv8>, z: bv8)
    requires |t| == 7
    ensures t + seq(0, _ => 0) + [z] == [t[0], t[1], t[2], t[3], t[4], t[5], t[6], z]
  {
  }

  lemma Layout7(msg: seq<bv8>)
    requires |msg| % 8 == 7
    ensures Le64(LastBlock(msg)) ==
      msg[BlockEnd(|msg|)..] + seq(7 - |msg| % 8, _ => 0) + [LengthByte(|msg|)]
  {
    var t := msg[BlockEnd(|msg|)..];
    var z := LengthByte(|msg|);
    Tail7(t);
    Word7(t[0], t[1], t[2], t[3], t[4], t[5], t[6], z);
    Pad7(t, z);
  }

  /**
   * The final word laid out byte by byte: the tail bytes first, zero padding,
   * the length byte last.
   */
  lemma LastBlockLayout(msg: seq<bv8>)
    ensures Le64(LastBlock(msg)) ==
      msg[BlockEnd(|msg|)..] + seq(7 - |msg| % 8, _ => 0) + [LengthByte(|msg|)]
  {
    match |msg| % 8
    case 0 => Layout0(msg);
    case 1 => Layout1(msg);
    case 2 => Layout2(msg);
    case 3 => Layout3(msg);
    case 4 => Layout4(msg);
    case 5 => Layout5(msg);
    case 6 => Layout6(msg);
    case 7 => Layout7(msg);
  }

  /** One more whole word absorbed. */
  lemma AbsorbStep(s: SipState, msg: seq<bv8>, n: nat)
    requires 8 * (n + 1) <= |msg|
    ensures Absorb(s, msg, n + 1) == Compress(Absorb(s, msg, n), Rd64le(msg[8 * n..]))
  {
  }

  /** A word is read from the first eight bytes only. */
  lemma Rd64leOfPrefix(x: seq<bv8>, y: seq<bv8>)
    requires |x| >= 8 && |y| >= 8 && x[..8] == y[..8]
    ensures Rd64le(x) == Rd64le(y)
  {
    forall i | 0 <= i < 8 ensures x[i] == y[i] {
      assert x[i] == x[..8][i];
    }
  }

  /** The word at `i` of a prefix that contains it is the word at `i` of the message. */
  lemma WordOfPrefix(msg: seq<bv8>, m: nat, i: nat)
    requires i + 8 <= m <= |msg|
    ensures Rd64le(msg[..m][i..]) == Rd64le(msg[i..])
  {
    assert msg[..m][i..][..8] == msg[i..][..8];
    Rd64leOfPrefix(msg[..m][i..], msg[i..]);
  }

  /** One more word of a prefix, absorbed as the same word of the message. */
  lemma AbsorbPrefixStep(s: SipState, msg: seq<bv8>, m: nat, k: nat)
    requires 8 * (k + 1) <= m <= |msg|
    requires Absorb(s, msg[..m], k) == Absorb(s, msg, k)
    ensures Absorb(s, msg[..m], k + 1) == Absorb(s, msg, k + 1)
  {
    WordOfPrefix(msg, m, 8 * k);
  }

  /** The first `n` words of a message are those of any prefix that contains them. */
  lemma AbsorbPrefix(s: SipState, msg: seq<bv8>, m: nat, n: nat)
    requires 8 * n <= m <= |msg|
    ensures Absorb(s, msg[..m], n) == Absorb(s, msg, n)
  {
    var k := 0;
    while k < n
      invariant k <= n
      invariant Absorb(s, msg[..m], k) == Absorb(s, msg, k)
    {
      AbsorbPrefixStep(s, msg, m, k);
      k := k + 1;
    }
  }

  /** Adding whole multiples of 8 leaves the remainder modulo 8 alone. */
  lemma ModShift8(k: nat, r: nat)
    ensures (8 * k + r) % 8 == r % 8
  {
  }

  /** Adding whole multiples of 256 leaves the remainder modulo 256 alone. */
  lemma ModShift256(k: nat, r: nat)
    ensures (256 * k + r) % 256 == r % 256
  {
  }

  /** A length below 2^32 is its own remainder modulo 2^32. */
  lemma ModBelow(n: nat)
    requires n < 0x1_0000_0000
    ensures n % 0x1_0000_0000 == n
  {
  }

  /** A length cut down modulo 2^32 keeps its remainders modulo 8 and 256. */
  lemma CutLength(n: nat)
    ensures n % 0x1_0000_0000 <= n
    ensures n % 8 == (n % 0x1_0000_0000) % 8
    ensures n % 256 == (n % 0x1_0000_0000) % 256
  {
    var q := n / 0x1_0000_0000;
    var r := n % 0x1_0000_0000;
    assert n == 8 * (0x2000_0000 * q) + r;
    assert n == 256 * (0x100_0000 * q) + r;
    ModShift8(0x2000_0000 * q, r);
    ModShift256(0x100_0000 * q, r);
  }

  /**
   * Cutting a length down modulo 2^32 keeps its tail length and its length
   * byte, and the truncated block end is the block end of the cut length.
   */
  lemma TruncatedBlockEndOfCut(n: nat)
    ensures n % 0x1_0000_0000 <= n
    ensures n % 8 == (n % 0x1_0000_0000) % 8
    ensures LengthByte(n) == LengthByte(n % 0x1_0000_0000)
    ensures TruncatedBlockEnd(n) == BlockEnd(n % 0x1_0000_0000)
  {
    CutLength(n);
  }

  /** The final word the code as written builds is the final word of the cut message. */
  lemma LastBlockOfCut(msg: seq<bv8>)
    ensures LastBlockAsWritten(msg) == LastBlock(msg[..|msg| % 0x1_0000_0000])
  {
    var r := |msg| % 0x1_0000_0000;
    var e := TruncatedBlockEnd(|msg|);
    TruncatedBlockEndOfCut(|msg|);
    assert msg[e..e + |msg| % 8] == msg[..r][BlockEnd(r)..];
  }

  /**
   * What uuidv47.h computes is SipHash-2-4 of the message cut down to its
   * length modulo 2^32: the bytes from there on are never read.
   */
  lemma SipHash24AsWrittenPrefix(msg: seq<bv8>, k0: bv64, k1: bv64)
    ensures SipHash24AsWritten(msg, k0, k1) == SipHash24(msg[..|msg| % 0x1_0000_0000], k0, k1)
  {
    var r := |msg| % 0x1_0000_0000;
    var p := msg[..r];
    var e := TruncatedBlockEnd(|msg|);
    TruncatedBlockEndOfCut(|msg|);
    assert e / 8 == |p| / 8;
    AbsorbPrefix(Init(k0, k1), msg, r, r / 8);
    LastBlockOfCut(msg);
  }

  /** Below 2^32 bytes the code as written computes SipHash-2-4. */
  lemma SipHash24AsWrittenAgrees(msg: seq<bv8>, k0: bv64, k1: bv64)
    requires |msg| < 0x1_0000_0000
    ensures SipHash24AsWritten(msg, k0, k1) == SipHash24(msg, k0, k1)
  {
    ModBelow(|msg|);
    assert msg[..|msg|] == msg;
    SipHash24AsWrittenPrefix(msg, k0, k1);
  }

  /**
   * A message of 2^32 + 9 bytes hashes as its first nine: the tail byte
   * read is `msg[8]`, not `msg[2^32 + 8]`.
   */
  lemma SipHash24AsWrittenTruncates(msg: seq<bv8>, k0: bv64, k1: bv64)
    requires |msg| == 0x1_0000_0009
    ensures SipHash24AsWritten(msg, k0, k1) == SipHash24(msg[..9], k0, k1)
  {
    assert |msg| % 0x1_0000_0000 == 9;
    SipHash24AsWrittenPrefix(msg, k0, k1);
  }

  /** The word 0, 1, ..., 7 compressed into the reference key's initial state. */
  lemma FirstWordValue(s: SipState, m: bv64)
    requires s == SipState(0x7469686173716475, 0x6b617f6d656e6665, 0x6b7f62616d677361, 0x7b6b696e727e6c7b) && m == 0x0706050403020100
    ensures Compress(s, m) == SipState(0x4a017198de0a59e0, 0x0d52f6f62a4f59a4, 0x634cb3577b01fd3d, 0xa5224d6f55c7d9c8)
  {
    assert Injected(s, m) == SipState(0x7469686173716475, 0x6b617f6d656e6665, 0x6b7f62616d677361, 0x7c6d6c6a717c6d7b);
    assert SipRound(SipState(0x7469686173716475, 0x6b617f6d656e6665, 0x6b7f62616d677361, 0x7c6d6c6a717c6d7b)) == SipState(0x64668a929363847f, 0x4ed232083d9aa8dc, 0xf2f74892d8141a2e, 0x9290f9810552f4a8);
    assert SipRound(SipState(0x64668a929363847f, 0x4ed232083d9aa8dc, 0xf2f74892d8141a2e, 0x9290f9810552f4a8)) == SipState(0x4d07749cdd0858e0, 0x0d52f6f62a4f59a4, 0x634cb3577b01fd3d, 0xa5224d6f55c7d9c8);
  }

  /** The final word of the 0-byte test message, compressed. */
  lemma LastWordValue0(s: SipState, m: bv64)
    requires s == SipState(0x7469686173716475, 0x6b617f6d656e6665, 0x6b7f62616d677361, 0x7b6b696e727e6c7b) && m == 0x0000000000000000
    ensures Compress(s, m) == SipState(0x75126fd44af190b6, 0x084235164f06142b, 0x37b04f9f8026831d, 0x1b4678cde8253231)
  {
    assert Injected(s, m) == SipState(0x7469686173716475, 0x6b617f6d656e6665, 0x6b7f62616d677361, 0x7b6b696e727e6c7b);
    assert SipRound(SipState(0x7469686173716475, 0x6b617f6d656e6665, 0x6b7f62616d677361, 0x7b6b696e727e6c7b)) == SipState(0x6864848c93698c85, 0x41d43f143c94a7dc, 0xf3f94792d7121732, 0x5e52f75805987c12);
    assert SipRound(SipState(0x6864848c93698c85, 0x41d43f143c94a7dc, 0xf3f94792d7121732, 0x5e52f75805987c12)) == SipState(0x75126fd44af190b6, 0x084235164f06142b, 0x37b04f9f8026831d, 0x1b4678cde8253231);
  }

  /** The finalization for the 0-byte test message. */
  lemma FinalizeValue0(s: SipState)
    requires s == SipState(0x75126fd44af190b6, 0x084235164f06142b, 0x37b04f9f8026831d, 0x1b4678cde8253231)
    ensures Finalize(s) == 0x726fdb47dd0e0e31
  {
    assert SipRound(SipState(0x75126fd44af190b6, 0x084235164f06142b, 0x37b04f9f802683e2, 0x1b4678cde8253231)) == SipState(0xc432c529d7cf523f, 0x54f98392486c0c10, 0xc3be7bfc8eed3577, 0xcd398a7c7d6a155b);
    assert SipRound(SipState(0xc432c529d7cf523f, 0x54f98392486c0c10, 0xc3be7bfc8eed3577, 0xcd398a7c7d6a155b)) == SipState(0x3abfd9623238d0a7, 0xb9354b5807b0cd1e, 0xae109fa2ba56082a, 0x58dcf8f2cf5b8028);
    assert SipRound(SipState(0x3abfd9623238d0a7, 0xb9354b5807b0cd1e, 0xae109fa2ba56082a, 0x58dcf8f2cf5b8028)) == SipState(0x3808f593fd8ef548, 0x2913fc753c3d6609, 0xa9fbd335618bbce1, 0xc1c9c6a9ec5136a2);
    assert SipRound(SipState(0x3808f593fd8ef548, 0x2913fc753c3d6609, 0xa9fbd335618bbce1, 0xc1c9c6a9ec5136a2)) == SipState(0xe738d0dfdc9b2453, 0x214ac5771e0c4cd2, 0xe2ea71f68a57ef6d, 0x56f7bf1995ce89dd);
  }

  /** The final word of the 0-byte test message. */
  lemma LastBlockValue0(msg: seq<bv8>)
    requires msg == []
    ensures LastBlock(msg) == 0x0000000000000000
  {
    Tail0(msg[BlockEnd(|msg|)..]);
  }

  /** SipHash-2-4 of the empty message under the reference key. */
  lemma Vector0(msg: seq<bv8>, k0: bv64, k1: bv64)
    requires msg == [] && k0 == 0x0706050403020100 && k1 == 0x0f0e0d0c0b0a0908
    ensures SipHash24(msg, k0, k1) == 0x726fdb47dd0e0e31
  {
    LastBlockValue0(msg);
    LastWordValue0(Absorb(Init(k0, k1), msg, |msg| / 8), LastBlock(msg));
    FinalizeValue0(Compress(Absorb(Init(k0, k1), msg, |msg| / 8), LastBlock(msg)));
  }

  /** The final word of the 1-byte test message, compressed. */
  lemma LastWordValue1(s: SipState, m: bv64)
    requires s == SipState(0x7469686173716475, 0x6b617f6d656e6665, 0x6b7f62616d677361, 0x7b6b696e727e6c7b) && m == 0x0100000000000000
    ensures Compress(s, m) == SipState(0x811250d48cf12ab6, 0xe14235162c59b20b, 0x56aff1bf6926831d, 0xee4e87d86e272835)
  {
    assert Injected(s, m) == SipState(0x7469686173716475, 0x6b617f6d656e6665, 0x6b7f62616d677361, 0x7a6b696e727e6c7b);
    assert SipRound(SipState(0x7469686173716475, 0x6b617f6d656e6665, 0x6b7f62616d677361, 0x7a6b696e727e6c7b)) == SipState(0x6564848c93698d85, 0x40d43f143c94a7dc, 0xf3f94792d6121732, 0x5352f75825981d12);
    assert SipRound(SipState(0x6564848c93698d85, 0x40d43f143c94a7dc, 0xf3f94792d6121732, 0x5352f75825981d12)) == SipState(0x801250d48cf12ab6, 0xe14235162c59b20b, 0x56aff1bf6926831d, 0xee4e87d86e272835);
  }

  /** The finalization for the 1-byte test message. */
  lemma FinalizeValue1(s: SipState)
    requires s == SipState(0x811250d48cf12ab6, 0xe14235162c59b20b, 0x56aff1bf6926831d, 0xee4e87d86e272835)
    ensures Finalize(s) == 0x74f839c593dc67fd
  {
    assert SipRound(SipState(0x811250d48cf12ab6, 0xe14235162c59b20b, 0x56aff1bf692683e2, 0xee4e87d86e272835)) == SipState(0x7c70f47261ccc843, 0xe937a7ee278b04ec, 0x66594d0069f4b9f9, 0x8a6f1b7a2af4ac81);
    assert SipRound(SipState(0x7c70f47261ccc843, 0xe937a7ee278b04ec, 0x66594d0069f4b9f9, 0x8a6f1b7a2af4ac81)) == SipState(0x750a0fbd9e118875, 0x333e1298dea09429, 0x7eb3b683821dc10c, 0x24cd02a01cacfe3d);
    assert SipRound(SipState(0x750a0fbd9e118875, 0x333e1298dea09429, 0x7eb3b683821dc10c, 0x24cd02a01cacfe3d)) == SipState(0x1dd2c22e093fbdda, 0x7e9f2ec878f32e74, 0x0d01fa420d9bf2a6, 0xac3edcdd79ab99ce);
    assert SipRound(SipState(0x1dd2c22e093fbdda, 0x7e9f2ec878f32e74, 0x0d01fa420d9bf2a6, 0xac3edcdd79ab99ce)) == SipState(0xe7d09b02bafb1140, 0xcd3818f0a8790340, 0x6f43f01132e9d708, 0x31534a26b3b7a2f5);
  }

  /** The final word of the 1-byte test message. */
  lemma LastBlockValue1(msg: seq<bv8>)
    requires msg == [0]
    ensures LastBlock(msg) == 0x0100000000000000
  {
    Tail1(msg[BlockEnd(|msg|)..]);
  }

  /** SipHash-2-4 of the 1-byte message 0, 1, ..., 0 under the reference key. */
  lemma Vector1(msg: seq<bv8>, k0: bv64, k1: bv64)
    requires msg == [0] && k0 == 0x0706050403020100 && k1 == 0x0f0e0d0c0b0a0908
    ensures SipHash24(msg, k0, k1) == 0x74f839c593dc67fd
  {
    LastBlockValue1(msg);
    LastWordValue1(Absorb(Init(k0, k1), msg, |msg| / 8), LastBlock(msg));
    FinalizeValue1(Compress(Absorb(Init(k0, k1), msg, |msg| / 8), LastBlock(msg)));
  }

  /** The final word of the 2-byte test message, compressed. */
  lemma LastWordValue2(s: SipState, m: bv64)
    requires s == SipState(0x7469686173716475, 0x6b617f6d656e6665, 0x6b7f62616d677361, 0x7b6b696e727e6c7b) && m == 0x0200000000000100
    ensures Compress(s, m) == SipState(0x6011e5cbf2f0dab6, 0xfa42d3ef91b9b1eb, 0xd58fea5f72266424, 0x0f58f2c8f022b9c1)
  {
    assert Injected(s, m) == SipState(0x7469686173716475, 0x6b617f6d656e6665, 0x6b7f62616d677361, 0x796b696e727e6d7b);
    assert SipRound(SipState(0x7469686173716475, 0x6b617f6d656e6665, 0x6b7f62616d677361, 0x796b696e727e6d7b)) == SipState(0x6664848c92698185, 0x43d43f143c94a8dc, 0xf3f94892d5121732, 0x5052d75fa4983112);
    assert SipRound(SipState(0x6664848c92698185, 0x43d43f143c94a8dc, 0xf3f94892d5121732, 0x5052d75fa4983112)) == SipState(0x6211e5cbf2f0dbb6, 0xfa42d3ef91b9b1eb, 0xd58fea5f72266424, 0x0f58f2c8f022b9c1);
  }

  /** The finalization for the 2-byte test message. */
  lemma FinalizeValue2(s: SipState)
    requires s == SipState(0x6011e5cbf2f0dab6, 0xfa42d3ef91b9b1eb, 0xd58fea5f72266424, 0x0f58f2c8f022b9c1)
    ensures Finalize(s) == 0x0d6c8009d9a94f5a
  {
    assert SipRound(SipState(0x6011e5cbf2f0dab6, 0xfa42d3ef91b9b1eb, 0xd58fea5f722664db, 0x0f58f2c8f022b9c1)) == SipState(0x9acab9ac35dccb7f, 0x720b4d9af33312d7, 0x14e11285e51228b5, 0x3b91c8ae0d5e0f7a);
    assert SipRound(SipState(0x9acab9ac35dccb7f, 0x720b4d9af33312d7, 0x14e11285e51228b5, 0x3b91c8ae0d5e0f7a)) == SipState(0xc1ecb4c409e00b05, 0x079aa2ff5deba28c, 0x3dc56846b5d83455, 0x0c5315847e33109f);
    assert SipRound(SipState(0xc1ecb4c409e00b05, 0x079aa2ff5deba28c, 0x3dc56846b5d83455, 0x0c5315847e33109f)) == SipState(0xc767b189ee1ba06a, 0x9f0d1d7d1d6049e7, 0x47a57256e7f13a49, 0xb8632300faf053ea);
    assert SipRound(SipState(0xc767b189ee1ba06a, 0x9f0d1d7d1d6049e7, 0x47a57256e7f13a49, 0xb8632300faf053ea)) == SipState(0x2e8459f917800557, 0x1cb2068cd6492c55, 0xe528a7e3c5e40202, 0xda72789fdd84645a);
  }

  /** The final word of the 2-byte test message. */
  lemma LastBlockValue2(msg: seq<bv8>)
    requires msg == [0, 1]
    ensures LastBlock(msg) == 0x0200000000000100
  {
    Tail2(msg[BlockEnd(|msg|)..]);
  }

  /** SipHash-2-4 of the 2-byte message 0, 1, ..., 1 under the reference key. */
  lemma Vector2(msg: seq<bv8>, k0: bv64, k1: bv64)
    requires msg == [0, 1] && k0 == 0x0706050403020100 && k1 == 0x0f0e0d0c0b0a0908
    ensures SipHash24(msg, k0, k1) == 0x0d6c8009d9a94f5a
  {
    LastBlockValue2(msg);
    LastWordValue2(Absorb(Init(k0, k1), msg, |msg| / 8), LastBlock(msg));
    FinalizeValue2(Compress(Absorb(Init(k0, k1), msg, |msg| / 8), LastBlock(msg)));
  }

  /** The final word of the 3-byte test message, compressed. */
  lemma LastWordValue3(s: SipState, m: bv64)
    requires s == SipState(0x7469686173716475, 0x6b617f6d656e6665, 0x6b7f62616d677361, 0x7b6b696e727e6c7b) && m == 0x0300000000020100
    ensures Compress(s, m) == SipState(0x6e95ce042eed74f8, 0xe28753aab6fccbcb, 0xf48a887f6ae46461, 0xf9c4d8d2643ca70c)
  {
    assert Injected(s, m) == SipState(0x7469686173716475, 0x6b617f6d656e6665, 0x6b7f62616d677361, 0x786b696e727c6d7b);
    assert SipRound(SipState(0x7469686173716475, 0x6b617f6d656e6665, 0x6b7f62616d677361, 0x786b696e727c6d7b)) == SipState(0x6364848e92638085, 0x42d43f143c9aa8dc, 0xf3f74892d4121732, 0x5512d79d8492d012);
    assert SipRound(SipState(0x6364848e92638085, 0x42d43f143c9aa8dc, 0xf3f74892d4121732, 0x5512d79d8492d012)) == SipState(0x6d95ce042eef75f8, 0xe28753aab6fccbcb, 0xf48a887f6ae46461, 0xf9c4d8d2643ca70c);
  }

  /** The finalization for the 3-byte test message. */
  lemma FinalizeValue3(s: SipState)
    requires s == SipState(0x6e95ce042eed74f8, 0xe28753aab6fccbcb, 0xf48a887f6ae46461, 0xf9c4d8d2643ca70c)
    ensures Finalize(s) == 0x85676696d7fb7e2d
  {
    assert SipRound(SipState(0x6e95ce042eed74f8, 0xe28753aab6fccbcb, 0xf48a887f6ae4649e, 0xf9c4d8d2643ca70c)) == SipState(0x1c874630b94b141c, 0x475521e532933eed, 0x4bb4483da9b7d8c3, 0xb12a438ef48dc7bc);
    assert SipRound(SipState(0x1c874630b94b141c, 0x475521e532933eed, 0x4bb4483da9b7d8c3, 0xb12a438ef48dc7bc)) == SipState(0xab2ed24abdd5796a, 0x58304213dd8e13a3, 0x2a499c62c4bf5a14, 0x4305ed6897629365);
    assert SipRound(SipState(0xab2ed24abdd5796a, 0x58304213dd8e13a3, 0x2a499c62c4bf5a14, 0x4305ed6897629365)) == SipState(0x1b8aabb6d2a3c2da, 0xa7b24b95792fc5be, 0xb539d384786cf9ba, 0xceb343231d33c639);
    assert SipRound(SipState(0x1b8aabb6d2a3c2da, 0xa7b24b95792fc5be, 0xb539d384786cf9ba, 0xceb343231d33c639)) == SipState(0x0ca1942d16d6688c, 0xbee809d9f1d808fd, 0x49051c610e3b6f11, 0x7e2be7033ece714d);
  }

  /** The final word of the 3-byte test message. */
  lemma LastBlockValue3(msg: seq<bv8>)
    requires msg == [0, 1, 2]
    ensures LastBlock(msg) == 0x0300000000020100
  {
    Tail3(msg[BlockEnd(|msg|)..]);
  }

  /** SipHash-2-4 of the 3-byte message 0, 1, ..., 2 under the reference key. */
  lemma Vector3(msg: seq<bv8>, k0: bv64, k1: bv64)
    requires msg == [0, 1, 2] && k0 == 0x0706050403020100 && k1 == 0x0f0e0d0c0b0a0908
    ensures SipHash24(msg, k0, k1) == 0x85676696d7fb7e2d
  {
    LastBlockValue3(msg);
    LastWordValue3(Absorb(Init(k0, k1), msg, |msg| / 8), LastBlock(msg));
    FinalizeValue3(Compress(Absorb(Init(k0, k1), msg, |msg| / 8), LastBlock(msg)));
  }

  /** The final word of the 4-byte test message, compressed. */
  lemma LastWordValue4(s: SipState, m: bv64)
    requires s == SipState(0x7469686173716475, 0x6b617f6d656e6665, 0x6b7f62616d677361, 0x7b6b696e727e6c7b) && m == 0x0400000003020100
    ensures Compress(s, m) == SipState(0xd8958b0562eec9f8, 0xacc7898ab53d93ab, 0xc68bc81f2ae48241, 0x88e37d85eb2dba13)
  {
    assert Injected(s, m) == SipState(0x7469686173716475, 0x6b617f6d656e6665, 0x6b7f62616d677361, 0x7f6b696e717c6d7b);
    assert SipRound(SipState(0x7469686173716475, 0x6b617f6d656e6665, 0x6b7f62616d677361, 0x7f6b696e717c6d7b)) == SipState(0x5c64858e93638785, 0x4dd43f143d9aa8dc, 0xf2f74892db121732, 0x0a12f69d6593f712);
    assert SipRound(SipState(0x5c64858e93638785, 0x4dd43f143d9aa8dc, 0xf2f74892db121732, 0x0a12f69d6593f712)) == SipState(0xdc958b0561ecc8f8, 0xacc7898ab53d93ab, 0xc68bc81f2ae48241, 0x88e37d85eb2dba13);
  }

  /** The finalization for the 4-byte test message. */
  lemma FinalizeValue4(s: SipState)
    requires s == SipState(0xd8958b0562eec9f8, 0xacc7898ab53d93ab, 0xc68bc81f2ae48241, 0x88e37d85eb2dba13)
    ensures Finalize(s) == 0xcf2794e0277187b7
  {
    assert SipRound(SipState(0xd8958b0562eec9f8, 0xacc7898ab53d93ab, 0xc68bc81f2ae482be, 0x88e37d85eb2dba13)) == SipState(0x4b170c2c315ec8c2, 0x47b4d36e901d8dd4, 0xc06b650cc3db87dc, 0x9a028c1ab7189597);
    assert SipRound(SipState(0x4b170c2c315ec8c2, 0x47b4d36e901d8dd4, 0xc06b650cc3db87dc, 0x9a028c1ab7189597)) == SipState(0x97f39cd6822f670b, 0x78211f4d577aea9f, 0xebbafbd36313fec0, 0x500e70a66c15a9e3);
    assert SipRound(SipState(0x97f39cd6822f670b, 0x78211f4d577aea9f, 0xebbafbd36313fec0, 0x500e70a66c15a9e3)) == SipState(0x2519521676dfb4d0, 0x425f8ab5297f00ab, 0x542367516fc68346, 0x28958b496376d930);
    assert SipRound(SipState(0x2519521676dfb4d0, 0x425f8ab5297f00ab, 0x542367516fc68346, 0x28958b496376d930)) == SipState(0x98504767718651ae, 0xe12fece8a9e815fa, 0x138939a612e76c7f, 0xa5d106c9edf8af9c);
  }

  /** The final word of the 4-byte test message. */
  lemma LastBlockValue4(msg: seq<bv8>)
    requires msg == [0, 1, 2, 3]
    ensures LastBlock(msg) == 0x0400000003020100
  {
    Tail4(msg[BlockEnd(|msg|)..]);
  }

  /** SipHash-2-4 of the 4-byte message 0, 1, ..., 3 under the reference key. */
  lemma Vector4(msg: seq<bv8>, k0: bv64, k1: bv64)
    requires msg == [0, 1, 2, 3] && k0 == 0x0706050403020100 && k1 == 0x0f0e0d0c0b0a0908
    ensures SipHash24(msg, k0, k1) == 0xcf2794e0277187b7
  {
    LastBlockValue4(msg);
    LastWordValue4(Absorb(Init(k0, k1), msg, |msg| / 8), LastBlock(msg));
    FinalizeValue4(Compress(Absorb(Init(k0, k1), msg, |msg| / 8), LastBlock(msg)));
  }

  /** The final word of the 5-byte test message, compressed. */
  lemma LastWordValue5(s: SipState, m: bv64)
    requires s == SipState(0x7469686173716475, 0x6b617f6d656e6665, 0x6b7f62616d677361, 0x7b6b696e727e6c7b) && m == 0x0500000403020100
    ensures Compress(s, m) == SipState(0xc00da9ed2c6e67f0, 0xa23709f6e87d1710, 0xa58b54bb2464023d, 0x95fc8f1d65b2e71f)
  {
    assert Injected(s, m) == SipState(0x7469686173716475, 0x6b617f6d656e6665, 0x6b7f62616d677361, 0x7e6b696a717c6d7b);
    assert SipRound(SipState(0x7469686173716475, 0x6b617f6d656e6665, 0x6b7f62616d677361, 0x7e6b696a717c6d7b)) == SipState(0x5960859293638685, 0x4cd43f083d9aa8dc, 0xf2f74892da12172e, 0x0f96f68145939692);
    assert SipRound(SipState(0x5960859293638685, 0x4cd43f083d9aa8dc, 0xf2f74892da12172e, 0x0f96f68145939692)) == SipState(0xc50da9e92f6c66f0, 0xa23709f6e87d1710, 0xa58b54bb2464023d, 0x95fc8f1d65b2e71f);
  }

  /** The finalization for the 5-byte test message. */
  lemma FinalizeValue5(s: SipState)
    requires s == SipState(0xc00da9ed2c6e67f0, 0xa23709f6e87d1710, 0xa58b54bb2464023d, 0x95fc8f1d65b2e71f)
    ensures Finalize(s) == 0x18765564cd99a68d
  {
    assert SipRound(SipState(0xc00da9ed2c6e67f0, 0xa23709f6e87d1710, 0xa58b54bb246402c2, 0x95fc8f1d65b2e71f)) == SipState(0xc986056acf4e3001, 0x62d53ed696ad53d3, 0x40205527bf0252c4, 0x04cba4454cf8a351);
    assert SipRound(SipState(0xc986056acf4e3001, 0x62d53ed696ad53d3, 0x40205527bf0252c4, 0x04cba4454cf8a351)) == SipState(0x46aa3969d507371f, 0xfd440f020461f2a0, 0xdb7ce5a3d06d9001, 0xf41f2c178edb22c9);
    assert SipRound(SipState(0x46aa3969d507371f, 0xfd440f020461f2a0, 0xdb7ce5a3d06d9001, 0xf41f2c178edb22c9)) == SipState(0xbcf4c91fc16f8f40, 0x8065d4d92aaa6cfd, 0x4685e8e191aa1aa3, 0x50fb79371bd3fe33);
    assert SipRound(SipState(0xbcf4c91fc16f8f40, 0x8065d4d92aaa6cfd, 0x4685e8e191aa1aa3, 0x50fb79371bd3fe33)) == SipState(0xdad0760890a7e625, 0x6e1859cad7676a84, 0x4f0465071f431ac6, 0xe3ba1fa1951a30ea);
  }

  /** The final word of the 5-byte test message. */
  lemma LastBlockValue5(msg: seq<bv8>)
    requires msg == [0, 1, 2, 3, 4]
    ensures LastBlock(msg) == 0x0500000403020100
  {
    Tail5(msg[BlockEnd(|msg|)..]);
  }

  /** SipHash-2-4 of the 5-byte message 0, 1, ..., 4 under the reference key. */
  lemma Vector5(msg: seq<bv8>, k0: bv64, k1: bv64)
    requires msg == [0, 1, 2, 3, 4] && k0 == 0x0706050403020100 && k1 == 0x0f0e0d0c0b0a0908
    ensures SipHash24(msg, k0, k1) == 0x18765564cd99a68d
  {
    LastBlockValue5(msg);
    LastWordValue5(Absorb(Init(k0, k1), msg, |msg| / 8), LastBlock(msg));
    FinalizeValue5(Compress(Absorb(Init(k0, k1), msg, |msg| / 8), LastBlock(msg)));
  }

  /** The final word of the 6-byte test message, compressed. */
  lemma LastWordValue6(s: SipState, m: bv64)
    requires s == SipState(0x7469686173716475, 0x6b617f6d656e6665, 0x6b7f62616d677361, 0x7b6b696e727e6c7b) && m == 0x0600050403020100
    ensures Compress(s, m) == SipState(0x3e0d90e69b6e41f0, 0xbc50f6f6cbbc81b0, 0x848ad75bca03fd3d, 0xc810f31212a0a11c)
  {
    assert Injected(s, m) == SipState(0x7469686173716475, 0x6b617f6d656e6665, 0x6b7f62616d677361, 0x7d6b6c6a717c6d7b);
    assert SipRound(SipState(0x7469686173716475, 0x6b617f6d656e6665, 0x6b7f62616d677361, 0x7d6b6c6a717c6d7b)) == SipState(0x5d608a9293638585, 0x4fd432083d9aa8dc, 0xf2f74892d9121a2e, 0xab96f98125931592);
    assert SipRound(SipState(0x5d608a9293638585, 0x4fd432083d9aa8dc, 0xf2f74892d9121a2e, 0xab96f98125931592)) == SipState(0x380d95e2986c40f0, 0xbc50f6f6cbbc81b0, 0x848ad75bca03fd3d, 0xc810f31212a0a11c);
  }

  /** The finalization for the 6-byte test message. */
  lemma FinalizeValue6(s: SipState)
    requires s == SipState(0x3e0d90e69b6e41f0, 0xbc50f6f6cbbc81b0, 0x848ad75bca03fd3d, 0xc810f31212a0a11c)
    ensures Finalize(s) == 0xcbc9466e58fee3ce
  {
    assert SipRound(SipState(0x3e0d90e69b6e41f0, 0xbc50f6f6cbbc81b0, 0x848ad75bca03fdc2, 0xc810f31212a0a11c)) == SipState(0x26b49c6e7816deab, 0x8c49c7217b94ba08, 0xd3c17308311c2918, 0x3f1b2b64a1c12f90);
    assert SipRound(SipState(0x26b49c6e7816deab, 0x8c49c7217b94ba08, 0xd3c17308311c2918, 0x3f1b2b64a1c12f90)) == SipState(0x2d63d861b04bcb42, 0x050c22bf25b2f5d6, 0x37c7e1e29cf6eb6a, 0xd8dc71cd462cfc45);
    assert SipRound(SipState(0x2d63d861b04bcb42, 0x050c22bf25b2f5d6, 0x37c7e1e29cf6eb6a, 0xd8dc71cd462cfc45)) == SipState(0x3767d69b51d63a93, 0xf9f165ce6d148518, 0x6e67e968c6dc7346, 0x87043a5cbfba17b1);
    assert SipRound(SipState(0x3767d69b51d63a93, 0xf9f165ce6d148518, 0x6e67e968c6dc7346, 0x87043a5cbfba17b1)) == SipState(0x8e1b5c2ac2804a5c, 0xf0db4903f5ca104d, 0xb4e02b8c134d1590, 0x01e978cb7cf9ac4f);
  }

  /** The final word of the 6-byte test message. */
  lemma LastBlockValue6(msg: seq<bv8>)
    requires msg == [0, 1, 2, 3, 4, 5]
    ensures LastBlock(msg) == 0x0600050403020100
  {
    Tail6(msg[BlockEnd(|msg|)..]);
  }

  /** SipHash-2-4 of the 6-byte message 0, 1, ..., 5 under the reference key. */
  lemma Vector6(msg: seq<bv8>, k0: bv64, k1: bv64)
    requires msg == [0, 1, 2, 3, 4, 5] && k0 == 0x0706050403020100 && k1 == 0x0f0e0d0c0b0a0908
    ensures SipHash24(msg, k0, k1) == 0xcbc9466e58fee3ce
  {
    LastBlockValue6(msg);
    LastWordValue6(Absorb(Init(k0, k1), msg, |msg| / 8), LastBlock(msg));
    FinalizeValue6(Compress(Absorb(Init(k0, k1), msg, |msg| / 8), LastBlock(msg)));
  }

  /** The final word of the 7-byte test message, compressed. */
  lemma LastWordValue7(s: SipState, m: bv64)
    requires s == SipState(0x7469686173716475, 0x6b617f6d656e6665, 0x6b7f62616d677361, 0x7b6b696e727e6c7b) && m == 0x0706050403020100
    ensures Compress(s, m) == SipState(0x4a017198de0a59e0, 0x0d52f6f62a4f59a4, 0x634cb3577b01fd3d, 0xa5224d6f55c7d9c8)
  {
    assert Injected(s, m) == SipState(0x7469686173716475, 0x6b617f6d656e6665, 0x6b7f62616d677361, 0x7c6d6c6a717c6d7b);
    assert SipRound(SipState(0x7469686173716475, 0x6b617f6d656e6665, 0x6b7f62616d677361, 0x7c6d6c6a717c6d7b)) == SipState(0x64668a929363847f, 0x4ed232083d9aa8dc, 0xf2f74892d8141a2e, 0x9290f9810552f4a8);
    assert SipRound(SipState(0x64668a929363847f, 0x4ed232083d9aa8dc, 0xf2f74892d8141a2e, 0x9290f9810552f4a8)) == SipState(0x4d07749cdd0858e0, 0x0d52f6f62a4f59a4, 0x634cb3577b01fd3d, 0xa5224d6f55c7d9c8);
  }

  /** The finalization for the 7-byte test message. */
  lemma FinalizeValue7(s: SipState)
    requires s == SipState(0x4a017198de0a59e0, 0x0d52f6f62a4f59a4, 0x634cb3577b01fd3d, 0xa5224d6f55c7d9c8)
    ensures Finalize(s) == 0xab0200f58b01d137
  {
    assert SipRound(SipState(0x4a017198de0a59e0, 0x0d52f6f62a4f59a4, 0x634cb3577b01fdc2, 0xa5224d6f55c7d9c8)) == SipState(0x4d5a08856055db37, 0x4a746857d06b1aad, 0xb43709b811f9ae8d, 0xed7b28ab355d7b3d);
    assert SipRound(SipState(0x4d5a08856055db37, 0x4a746857d06b1aad, 0xb43709b811f9ae8d, 0xed7b28ab355d7b3d)) == SipState(0xb9d9fd22d439358e, 0xa9d61a1923b8b3fd, 0x9aec8674bc76bd33, 0x5e1e707a420816ae);
    assert SipRound(SipState(0xb9d9fd22d439358e, 0xa9d61a1923b8b3fd, 0x9aec8674bc76bd33, 0x5e1e707a420816ae)) == SipState(0x81629e724c80a53a, 0xff67e927596e7174, 0xe00d309299fe2a3b, 0x1dbf8463f3718b2c);
    assert SipRound(SipState(0x81629e724c80a53a, 0xff67e927596e7174, 0xe00d309299fe2a3b, 0x1dbf8463f3718b2c)) == SipState(0x1f9e5e35870e3071, 0xa2d3f629ebb5c575, 0xf9313ea97bbb21aa, 0xef7e96409c010599);
  }

  /** The final word of the 7-byte test message. */
  lemma LastBlockValue7(msg: seq<bv8>)
    requires msg == [0, 1, 2, 3, 4, 5, 6]
    ensures LastBlock(msg) == 0x0706050403020100
  {
    Tail7(msg[BlockEnd(|msg|)..]);
  }

  /** SipHash-2-4 of the 7-byte message 0, 1, ..., 6 under the reference key. */
  lemma Vector7(msg: seq<bv8>, k0: bv64, k1: bv64)
    requires msg == [0, 1, 2, 3, 4, 5, 6] && k0 == 0x0706050403020100 && k1 == 0x0f0e0d0c0b0a0908
    ensures SipHash24(msg, k0, k1) == 0xab0200f58b01d137
  {
    LastBlockValue7(msg);
    LastWordValue7(Absorb(Init(k0, k1), msg, |msg| / 8), LastBlock(msg));
    FinalizeValue7(Compress(Absorb(Init(k0, k1), msg, |msg| / 8), LastBlock(msg)));
  }

  /** The final word of the 8-byte test message, compressed. */
  lemma LastWordValue8(s: SipState, m: bv64)
    requires s == SipState(0x4a017198de0a59e0, 0x0d52f6f62a4f59a4, 0x634cb3577b01fd3d, 0xa5224d6f55c7d9c8) && m == 0x0800000000000000
    ensures Compress(s, m) == SipState(0x89d9124023d9a50f, 0xb1d61ba5fb187052, 0x923c25dba476bcad, 0x2db69326a593860d)
  {
    assert Injected(s, m) == SipState(0x4a017198de0a59e0, 0x0d52f6f62a4f59a4, 0x634cb3577b01fd3d, 0xad224d6f55c7d9c8);
    assert SipRound(SipState(0x4a017198de0a59e0, 0x0d52f6f62a4f59a4, 0x634cb3577b01fd3d, 0xad224d6f55c7d9c8)) == SipState(0x655a08856055e2b6, 0x42746857d06b1a26, 0xb437093319f9ae8d, 0xc57b28aa24be42bc);
    assert SipRound(SipState(0x655a08856055e2b6, 0x42746857d06b1a26, 0xb437093319f9ae8d, 0xc57b28aa24be42bc)) == SipState(0x81d9124023d9a50f, 0xb1d61ba5fb187052, 0x923c25dba476bcad, 0x2db69326a593860d);
  }

  /** The finalization for the 8-byte test message. */
  lemma FinalizeValue8(s: SipState)
    requires s == SipState(0x89d9124023d9a50f, 0xb1d61ba5fb187052, 0x923c25dba476bcad, 0x2db69326a593860d)
    ensures Finalize(s) == 0x93f5f5799a932462
  {
    assert SipRound(SipState(0x89d9124023d9a50f, 0xb1d61ba5fb187052, 0x923c25dba476bc52, 0x2db69326a593860d)) == SipState(0x4bc631f307b69dcf, 0x9dc46a77ddb5740d, 0x5b0285bab8ce4b87, 0xd9ffb11efa93074c);
    assert SipRound(SipState(0x4bc631f307b69dcf, 0x9dc46a77ddb5740d, 0x5b0285bab8ce4b87, 0xd9ffb11efa93074c)) == SipState(0x6988de279db82796, 0x567e096ebb863cbf, 0xff4ef53799c69eb5, 0xe0de5b96f828a40f);
    assert SipRound(SipState(0x6988de279db82796, 0x567e096ebb863cbf, 0xff4ef53799c69eb5, 0xe0de5b96f828a40f)) == SipState(0x14fa0d3bf5e789b0, 0x8095bce62dacd308, 0x3098d15ee15881b5, 0x083cb12fb6b0fec5);
    assert SipRound(SipState(0x14fa0d3bf5e789b0, 0x8095bce62dacd308, 0x3098d15ee15881b5, 0x083cb12fb6b0fec5)) == SipState(0xad8e90f6fc5c5268, 0x45c7e1ccc8aa8902, 0x51fecd245ae89226, 0x2a424967f48d6d2e);
  }

  /** The length byte of an 8-byte message. */
  lemma LengthByteEight()
    ensures LengthByte(8) == 8
  {
  }

  /** The final word of the 8-byte test message. */
  lemma LastBlockValue8(msg: seq<bv8>)
    requires msg == [0, 1, 2, 3, 4, 5, 6, 7]
    ensures LastBlock(msg) == 0x0800000000000000
  {
    assert |msg| == 8 && BlockEnd(8) == 8;
    Tail0(msg[8..]);
    LengthByteEight();
    assert LengthWord(8) == 0x0800000000000000;
  }

  /** A message of one to two blocks starting 0, 1, ..., 7, after its first block is absorbed. */
  lemma OneBlockAbsorbed(msg: seq<bv8>, k0: bv64, k1: bv64)
    requires 8 <= |msg| < 16 && msg[..8] == [0, 1, 2, 3, 4, 5, 6, 7]
    requires k0 == 0x0706050403020100 && k1 == 0x0f0e0d0c0b0a0908
    ensures Absorb(Init(k0, k1), msg, |msg| / 8)
         == SipState(0x4a017198de0a59e0, 0x0d52f6f62a4f59a4, 0x634cb3577b01fd3d, 0xa5224d6f55c7d9c8)
  {
    assert |msg| / 8 == 1;
    assert msg[0..][..8] == msg[..8];
    assert Rd64le(msg[0..]) == 0x0706050403020100;
    FirstWordValue(Init(k0, k1), Rd64le(msg[0..]));
    AbsorbStep(Init(k0, k1), msg, 0);
  }

  /** SipHash-2-4 of the 8-byte message 0, 1, ..., 7 under the reference key. */
  lemma Vector8(msg: seq<bv8>, k0: bv64, k1: bv64)
    requires msg == [0, 1, 2, 3, 4, 5, 6, 7] && k0 == 0x0706050403020100 && k1 == 0x0f0e0d0c0b0a0908
    ensures SipHash24(msg, k0, k1) == 0x93f5f5799a932462
  {
    OneBlockAbsorbed(msg, k0, k1);
    LastBlockValue8(msg);
    LastWordValue8(Absorb(Init(k0, k1), msg, |msg| / 8), LastBlock(msg));
    FinalizeValue8(Compress(Absorb(Init(k0, k1), msg, |msg| / 8), LastBlock(msg)));
  }

  /** The final word of the 9-byte test message, compressed. */
  lemma LastWordValue9(s: SipState, m: bv64)
    requires s == SipState(0x4a017198de0a59e0, 0x0d52f6f62a4f59a4, 0x634cb3577b01fd3d, 0xa5224d6f55c7d9c8) && m == 0x0900000000000008
    ensures Compress(s, m) == SipState(0xeee1070d859a2c6f, 0x8ad61abbc3ba863a, 0xa83e87b39f76bda5, 0xcbfffe7af4cccf66)
  {
    assert Injected(s, m) == SipState(0x4a017198de0a59e0, 0x0d52f6f62a4f59a4, 0x634cb3577b01fd3d, 0xac224d6f55c7d9c0);
    assert SipRound(SipState(0x4a017198de0a59e0, 0x0d52f6f62a4f59a4, 0x634cb3577b01fd3d, 0xac224d6f55c7d9c0)) == SipState(0x4a5a0885605de36e, 0x43746857d06b1a3e, 0xb437092b18f9ae8d, 0xea7b29aa3bb5a364);
    assert SipRound(SipState(0x4a5a0885605de36e, 0x43746857d06b1a3e, 0xb437092b18f9ae8d, 0xea7b29aa3bb5a364)) == SipState(0xe7e1070d859a2c67, 0x8ad61abbc3ba863a, 0xa83e87b39f76bda5, 0xcbfffe7af4cccf66);
  }

  /** The finalization for the 9-byte test message. */
  lemma FinalizeValue9(s: SipState)
    requires s == SipState(0xeee1070d859a2c6f, 0x8ad61abbc3ba863a, 0xa83e87b39f76bda5, 0xcbfffe7af4cccf66)
    ensures Finalize(s) == 0x9e0082df0ba9e4b0
  {
    assert SipRound(SipState(0xeee1070d859a2c6f, 0x8ad61abbc3ba863a, 0xa83e87b39f76bd5a, 0xcbfffe7af4cccf66)) == SipState(0xd399258bd4dc6908, 0x9c62eccb6a300573, 0xadd770b32f1edfec, 0x8fd24123332d2186);
    assert SipRound(SipState(0xd399258bd4dc6908, 0x9c62eccb6a300573, 0xadd770b32f1edfec, 0x8fd24123332d2186)) == SipState(0xbb96f176b3c6a0f7, 0x8e2d4fa39a007ba3, 0xa1ee1f69700f30e7, 0xe4fe882767c931a7);
    assert SipRound(SipState(0xbb96f176b3c6a0f7, 0x8e2d4fa39a007ba3, 0xa1ee1f69700f30e7, 0xe4fe882767c931a7)) == SipState(0x5c92dcf43043c78a, 0x03a85c8dc0340f8d, 0x1a8bcfed671cd9eb, 0x57ae1304fe421ef2);
    assert SipRound(SipState(0x5c92dcf43043c78a, 0x03a85c8dc0340f8d, 0x1a8bcfed671cd9eb, 0x57ae1304fe421ef2)) == SipState(0x51b4f3c7dbe7e8f4, 0xdeea87753821a76a, 0xd6e5703fdde46479, 0xc7bb8652358bcf57);
  }

  /** The final word of the 9-byte test message. */
  lemma LastBlockValue9(msg: seq<bv8>)
    requires msg == [0, 1, 2, 3, 4, 5, 6, 7, 8]
    ensures LastBlock(msg) == 0x0900000000000008
  {
    Tail1(msg[BlockEnd(|msg|)..]);
  }

  /** SipHash-2-4 of the 9-byte message 0, 1, ..., 8 under the reference key. */
  lemma Vector9(msg: seq<bv8>, k0: bv64, k1: bv64)
    requires msg == [0, 1, 2, 3, 4, 5, 6, 7, 8] && k0 == 0x0706050403020100 && k1 == 0x0f0e0d0c0b0a0908
    ensures SipHash24(msg, k0, k1) == 0x9e0082df0ba9e4b0
  {
    OneBlockAbsorbed(msg, k0, k1);
    LastBlockValue9(msg);
    LastWordValue9(Absorb(Init(k0, k1), msg, |msg| / 8), LastBlock(msg));
    FinalizeValue9(Compress(Absorb(Init(k0, k1), msg, |msg| / 8), LastBlock(msg)));
  }

  /** The final word of the 10-byte test message, compressed. */
  lemma LastWordValue10(s: SipState, m: bv64)
    requires s == SipState(0x4a017198de0a59e0, 0x0d52f6f62a4f59a4, 0x634cb3577b01fd3d, 0xa5224d6f55c7d9c8) && m == 0x0a00000000000908
    ensures Compress(s, m) == SipState(0x93e0e40eab998660, 0xb3d51ffa431aa51a, 0x6e5ef093a67594a4, 0x35a09d6d7af7cc68)
  {
    assert Injected(s, m) == SipState(0x4a017198de0a59e0, 0x0d52f6f62a4f59a4, 0x634cb3577b01fd3d, 0xaf224d6f55c7d0c0);
    assert SipRound(SipState(0x4a017198de0a59e0, 0x0d52f6f62a4f59a4, 0x634cb3577b01fd3d, 0xaf224d6f55c7d0c0)) == SipState(0x675a0885575dcb6e, 0x40746857d06b133e, 0xb437002b1bf9ae8d, 0xc77a09a90cb62b64);
    assert SipRound(SipState(0x675a0885575dcb6e, 0x40746857d06b133e, 0xb437002b1bf9ae8d, 0xc77a09a90cb62b64)) == SipState(0x99e0e40eab998f68, 0xb3d51ffa431aa51a, 0x6e5ef093a67594a4, 0x35a09d6d7af7cc68);
  }

  /** The finalization for the 10-byte test message. */
  lemma FinalizeValue10(s: SipState)
    requires s == SipState(0x93e0e40eab998660, 0xb3d51ffa431aa51a, 0x6e5ef093a67594a4, 0x35a09d6d7af7cc68)
    ensures Finalize(s) == 0x7a5dbbc594ddb9f3
  {
    assert SipRound(SipState(0x93e0e40eab998660, 0xb3d51ffa431aa51a, 0x6e5ef093a675945b, 0x35a09d6d7af7cc68)) == SipState(0x2d47207134bb596b, 0x109fae4221851551, 0xdb84ddc38848da6c, 0xb39a80db98dc8b35);
    assert SipRound(SipState(0x2d47207134bb596b, 0x109fae4221851551, 0xdb84ddc38848da6c, 0xb39a80db98dc8b35)) == SipState(0x660534ffe7f7a4ee, 0x424a00f78f50220d, 0x160fb250574de923, 0xae7076e520965c76);
    assert SipRound(SipState(0x660534ffe7f7a4ee, 0x424a00f78f50220d, 0x160fb250574de923, 0xae7076e520965c76)) == SipState(0x29acd09ed3e221e0, 0x24eb0b5e378f64e8, 0xeaeab44bacd1ed52, 0x1dc9a2c3aed46d41);
    assert SipRound(SipState(0x29acd09ed3e221e0, 0x24eb0b5e378f64e8, 0xeaeab44bacd1ed52, 0x1dc9a2c3aed46d41)) == SipState(0xb5e980a3857f2357, 0x02a9bbc547388310, 0x4392dce838b0741c, 0x8e8f5c4b6e2a6da8);
  }

  /** The final word of the 10-byte test message. */
  lemma LastBlockValue10(msg: seq<bv8>)
    requires msg == [0, 1, 2, 3, 4, 5, 6, 7, 8, 9]
    ensures LastBlock(msg) == 0x0a00000000000908
  {
    Tail2(msg[BlockEnd(|msg|)..]);
  }

  /** SipHash-2-4 of the 10-byte message 0, 1, ..., 9 under the reference key. */
  lemma Vector10(msg: seq<bv8>, k0: bv64, k1: bv64)
    requires msg == [0, 1, 2, 3, 4, 5, 6, 7, 8, 9] && k0 == 0x0706050403020100 && k1 == 0x0f0e0d0c0b0a0908
    ensures SipHash24(msg, k0, k1) == 0x7a5dbbc594ddb9f3
  {
    OneBlockAbsorbed(msg, k0, k1);
    LastBlockValue10(msg);
    LastWordValue10(Absorb(Init(k0, k1), msg, |msg| / 8), LastBlock(msg));
    FinalizeValue10(Compress(Absorb(Init(k0, k1), msg, |msg| / 8), LastBlock(msg)));
  }

  /** The final word of the 11-byte test message, compressed. */
  lemma LastWordValue11(s: SipState, m: bv64)
    requires s == SipState(0x4a017198de0a59e0, 0x0d52f6f62a4f59a4, 0x634cb3577b01fd3d, 0xa5224d6f55c7d9c8) && m == 0x0b000000000a0908
    ensures Compress(s, m) == SipState(0x9cd904b2b1b9b9ba, 0xb7ed9f3f622143fa, 0x4d251273a23b9479, 0x3718781548ddb236)
  {
    assert Injected(s, m) == SipState(0x4a017198de0a59e0, 0x0d52f6f62a4f59a4, 0x634cb3577b01fd3d, 0xae224d6f55cdd0c0);
    assert SipRound(SipState(0x4a017198de0a59e0, 0x0d52f6f62a4f59a4, 0x634cb3577b01fd3d, 0xae224d6f55cdd0c0)) == SipState(0x645a088f5763cc6e, 0x41746857d061133e, 0xb43d002b1af9ae8d, 0xc53a09632c884c64);
    assert SipRound(SipState(0x645a088f5763cc6e, 0x41746857d061133e, 0xb43d002b1af9ae8d, 0xc53a09632c884c64)) == SipState(0x97d904b2b1b3b0b2, 0xb7ed9f3f622143fa, 0x4d251273a23b9479, 0x3718781548ddb236);
  }

  /** The finalization for the 11-byte test message. */
  lemma FinalizeValue11(s: SipState)
    requires s == SipState(0x9cd904b2b1b9b9ba, 0xb7ed9f3f622143fa, 0x4d251273a23b9479, 0x3718781548ddb236)
    ensures Finalize(s) == 0xf4b32f46226bada7
  {
    assert SipRound(SipState(0x9cd904b2b1b9b9ba, 0xb7ed9f3f622143fa, 0x4d251273a23b9486, 0x3718781548ddb236)) == SipState(0x1003c009adf61596, 0xf432ad74702d3c47, 0x26bef2056b5eda3f, 0x5aa8e5e79969908e);
    assert SipRound(SipState(0x1003c009adf61596, 0xf432ad74702d3c47, 0x26bef2056b5eda3f, 0x5aa8e5e79969908e)) == SipState(0x82a3a061987c9de3, 0x15f7c83fe0c2b919, 0xbe741a28d300bb68, 0x523128a794d00dea);
    assert SipRound(SipState(0x82a3a061987c9de3, 0x15f7c83fe0c2b919, 0xbe741a28d300bb68, 0x523128a794d00dea)) == SipState(0xb1422cfd02d60404, 0x5b338bb17d69fead, 0x95ed3d947241d789, 0x714f6bae6eb1045e);
    assert SipRound(SipState(0xb1422cfd02d60404, 0x5b338bb17d69fead, 0x95ed3d947241d789, 0x714f6bae6eb1045e)) == SipState(0xecd2caa4f1226356, 0xaa473f6df3267fb9, 0xa08885be84404046, 0x12ae5f31a42ff10e);
  }

  /** The final word of the 11-byte test message. */
  lemma LastBlockValue11(msg: seq<bv8>)
    requires msg == [0, 1, 2, 3, 4, 5, 6, 7, 8, 9, 10]
    ensures LastBlock(msg) == 0x0b000000000a0908
  {
    Tail3(msg[BlockEnd(|msg|)..]);
  }

  /** SipHash-2-4 of the 11-byte message 0, 1, ..., 10 under the reference key. */
  lemma Vector11(msg: seq<bv8>, k0: bv64, k1: bv64)
    requires msg == [0, 1, 2, 3, 4, 5, 6, 7, 8, 9, 10] && k0 == 0x0706050403020100 && k1 == 0x0f0e0d0c0b0a0908
    ensures SipHash24(msg, k0, k1) == 0xf4b32f46226bada7
  {
    OneBlockAbsorbed(msg, k0, k1);
    LastBlockValue11(msg);
    LastWordValue11(Absorb(Init(k0, k1), msg, |msg| / 8), LastBlock(msg));
    FinalizeValue11(Compress(Absorb(Init(k0, k1), msg, |msg| / 8), LastBlock(msg)));
  }

  /** The final word of the 12-byte test message, compressed. */
  lemma LastWordValue12(s: SipState, m: bv64)
    requires s == SipState(0x4a017198de0a59e0, 0x0d52f6f62a4f59a4, 0x634cb3577b01fd3d, 0xa5224d6f55c7d9c8) && m == 0x0c0000000b0a0908
    ensures Compress(s, m) == SipState(0xa2e0abb19fa484b8, 0x65aa841c7fecf0dd, 0x2d28c554603cb35a, 0xce7f37b3ed802ec9)
  {
    assert Injected(s, m) == SipState(0x4a017198de0a59e0, 0x0d52f6f62a4f59a4, 0x634cb3577b01fd3d, 0xa9224d6f5ecdd0c0);
    assert SipRound(SipState(0x4a017198de0a59e0, 0x0d52f6f62a4f59a4, 0x634cb3577b01fd3d, 0xa9224d6f5ecdd0c0)) == SipState(0x495a118f6063cd6e, 0x4e746857d961133e, 0xbd3d002b15f9ae8d, 0x883b3063fb8bed65);
    assert SipRound(SipState(0x495a118f6063cd6e, 0x4e746857d961133e, 0xbd3d002b15f9ae8d, 0x883b3063fb8bed65)) == SipState(0xaee0abb194ae8db0, 0x65aa841c7fecf0dd, 0x2d28c554603cb35a, 0xce7f37b3ed802ec9);
  }

  /** The finalization for the 12-byte test message. */
  lemma FinalizeValue12(s: SipState)
    requires s == SipState(0xa2e0abb19fa484b8, 0x65aa841c7fecf0dd, 0x2d28c554603cb35a, 0xce7f37b3ed802ec9)
    ensures Finalize(s) == 0x751e8fbc860ee5fb
  {
    assert SipRound(SipState(0xa2e0abb19fa484b8, 0x65aa841c7fecf0dd, 0x2d28c554603cb3a5, 0xce7f37b3ed802ec9)) == SipState(0xeba5861d6c005bdf, 0x13d79e2e7d070b9f, 0xcf47bb8e53b09d3b, 0xfaa9e8b8ee39d95d);
    assert SipRound(SipState(0xeba5861d6c005bdf, 0x13d79e2e7d070b9f, 0xcf47bb8e53b09d3b, 0xfaa9e8b8ee39d95d)) == SipState(0x0a50b1fd9834b07c, 0x017c80db4056e2ed, 0x4a5efb9cd6aa9032, 0x4583a70c1e109955);
    assert SipRound(SipState(0x0a50b1fd9834b07c, 0x017c80db4056e2ed, 0x4a5efb9cd6aa9032, 0x4583a70c1e109955)) == SipState(0x017a502179bb9edc, 0x9e1cf4d69f1c6b61, 0xf9915ccd2bb8fd7a, 0x9677edecf93e830b);
    assert SipRound(SipState(0x017a502179bb9edc, 0x9e1cf4d69f1c6b61, 0xf9915ccd2bb8fd7a, 0x9677edecf93e830b)) == SipState(0x96bdbdc247935bea, 0xbf21cabdc957b898, 0xbaabba839116e1d5, 0xe629424099dce75c);
  }

  /** The final word of the 12-byte test message. */
  lemma LastBlockValue12(msg: seq<bv8>)
    requires msg == [0, 1, 2, 3, 4, 5, 6, 7, 8, 9, 10, 11]
    ensures LastBlock(msg) == 0x0c0000000b0a0908
  {
    Tail4(msg[BlockEnd(|msg|)..]);
  }

  /** SipHash-2-4 of the 12-byte message 0, 1, ..., 11 under the reference key. */
  lemma Vector12(msg: seq<bv8>, k0: bv64, k1: bv64)
    requires msg == [0, 1, 2, 3, 4, 5, 6, 7, 8, 9, 10, 11] && k0 == 0x0706050403020100 && k1 == 0x0f0e0d0c0b0a0908
    ensures SipHash24(msg, k0, k1) == 0x751e8fbc860ee5fb
  {
    OneBlockAbsorbed(msg, k0, k1);
    LastBlockValue12(msg);
    LastWordValue12(Absorb(Init(k0, k1), msg, |msg| / 8), LastBlock(msg));
    FinalizeValue12(Compress(Absorb(Init(k0, k1), msg, |msg| / 8), LastBlock(msg)));
  }
}
