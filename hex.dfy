/**
 * Hexadecimal digits, shared by the UUID text codec of uuidv47.h and the key
 * parser of the PostgreSQL extension.  `hexval` (uuidv47.h) and `hex_nibble`
 * (uuid47_pg.c) have the same body and are both modelled by `HexVal`.
 */
module Hex {
  /** A character `hexval` accepts: a decimal digit or a letter a-f in either case. */
  predicate IsHexDigit(c: char)
  {
    ('0' <= c <= '9') || ('a' <= c <= 'f') || ('A' <= c <= 'F')
  }

  /** A digit `uuid_format` can emit: decimal or lower-case a-f. */
  predicate IsLowerHexDigit(c: char)
  {
    ('0' <= c <= '9') || ('a' <= c <= 'f')
  }

  /** `hexval` / `hex_nibble`: the value of a hex digit, -1 for any other character. */
  function HexVal(c: char): (r: int)
    ensures -1 <= r < 16
    ensures r == -1 <==> !IsHexDigit(c)
  {
    if '0' <= c <= '9' then c as int - '0' as int
    else if 'a' <= c <= 'f' then c as int - 'a' as int + 10
    else if 'A' <= c <= 'F' then c as int - 'A' as int + 10
    else -1
  }

  /** The digit table `"0123456789abcdef"` of `uuid_format`. */
  const LowerDigits: string := "0123456789abcdef"

  /** The lower-case digit of a nibble; `HexVal` reads it back. */
  function HexDigit(n: nat): (c: char)
    requires n < 16
    ensures IsLowerHexDigit(c) && IsHexDigit(c)
    ensures HexVal(c) == n
  {
    if n < 10 then ('0' as int + n) as char else ('a' as int + n - 10) as char
  }

  /** `HexDigit` is the lookup in the digit table. */
  lemma HexDigitIsTableLookup()
    ensures forall n | 0 <= n < 16 :: HexDigit(n) == LowerDigits[n]
  {
  }

  /** Upper and lower case spell the same value. */
  lemma HexValIgnoresCase(c: char)
    requires 'a' <= c <= 'f'
    ensures HexVal((c as int - 32) as char) == HexVal(c)
  {
  }

  /** A lower-case digit is the one `HexDigit` writes for its value. */
  lemma HexDigitOfHexVal(c: char)
    requires IsLowerHexDigit(c)
    ensures HexDigit(HexVal(c)) == c
  {
  }

  /** The high and the low nibble of a byte. */
  function HighNibble(b: bv8): (n: nat)
    ensures n < 16
  {
    (b >> 4) as nat
  }

  function LowNibble(b: bv8): (n: nat)
    ensures n < 16
  {
    (b & 0x0F) as nat
  }

  /** `(uint8_t)((h << 4) | l)`: the byte spelt by two hex digits. */
  function PairByte(h: char, l: char): (b: bv8)
    requires IsHexDigit(h) && IsHexDigit(l)
    ensures HighNibble(b) == HexVal(h) && LowNibble(b) == HexVal(l)
  {
    ((HexVal(h) as bv8) << 4) | (HexVal(l) as bv8)
  }

  /** A byte is determined by its two nibbles. */
  lemma NibblesDetermine(x: bv8, y: bv8)
    requires HighNibble(x) == HighNibble(y) && LowNibble(x) == LowNibble(y)
    ensures x == y
  {
    assert x >> 4 == y >> 4;
    assert x & 0x0F == y & 0x0F;
  }

  /** Spelling a byte as two digits and reading them back gives the byte. */
  lemma PairByteOfDigits(b: bv8)
    ensures PairByte(HexDigit(HighNibble(b)), HexDigit(LowNibble(b))) == b
  {
    NibblesDetermine(PairByte(HexDigit(HighNibble(b)), HexDigit(LowNibble(b))), b);
  }

  predicate AllHex(s: string)
  {
    forall i | 0 <= i < |s| :: IsHexDigit(s[i])
  }

  /** Pairs of hex digits, most significant digit first, as bytes. */
  function DecodeHex(s: string): (r: seq<bv8>)
    requires |s| % 2 == 0 && AllHex(s)
    ensures |r| == |s| / 2
  {
    if s == [] then [] else [PairByte(s[0], s[1])] + DecodeHex(s[2..])
  }

  /** Byte `i` of the decoding is spelt by the digits at `2i` and `2i+1`. */
  lemma {:induction false} DecodeHexAt(s: string, i: nat)
    requires |s| % 2 == 0 && AllHex(s) && i < |s| / 2
    ensures DecodeHex(s)[i] == PairByte(s[2 * i], s[2 * i + 1])
  {
    if i > 0 {
      DecodeHexAt(s[2..], i - 1);
    }
  }

  /** Decoding a concatenation of whole pairs decodes each part. */
  lemma {:induction false} DecodeHexAppend(a: string, b: string)
    requires |a| % 2 == 0 && AllHex(a) && |b| % 2 == 0 && AllHex(b)
    ensures AllHex(a + b) && DecodeHex(a + b) == DecodeHex(a) + DecodeHex(b)
  {
    if a != [] {
      assert (a + b)[2..] == a[2..] + b;
      DecodeHexAppend(a[2..], b);
    } else {
      assert a + b == b;
    }
  }

  /** Bytes agreeing pair by pair with a hex text are its decoding. */
  lemma DecodeHexOfPairs(t: string, d: seq<bv8>)
    requires |t| == 2 * |d| && AllHex(t)
    requires forall k | 0 <= k < |d| :: d[k] == PairByte(t[2 * k], t[2 * k + 1])
    ensures DecodeHex(t) == d
  {
    forall k | 0 <= k < |d|
      ensures DecodeHex(t)[k] == d[k]
    {
      DecodeHexAt(t, k);
    }
  }

  /** The lower-case hex spelling of a byte string, two digits per byte. */
  function EncodeHex(b: seq<bv8>): (s: string)
    ensures |s| == 2 * |b|
  {
    if b == [] then "" else [HexDigit(HighNibble(b[0])), HexDigit(LowNibble(b[0]))] + EncodeHex(b[1..])
  }

  /** The spelling of a concatenation is the concatenation of the spellings. */
  lemma {:induction false} EncodeHexAppend(a: seq<bv8>, b: seq<bv8>)
    ensures EncodeHex(a + b) == EncodeHex(a) + EncodeHex(b)
  {
    if a != [] {
      assert (a + b)[0] == a[0];
      assert (a + b)[1..] == a[1..] + b;
      EncodeHexAppend(a[1..], b);
      var d := [HexDigit(HighNibble(a[0])), HexDigit(LowNibble(a[0]))];
      assert EncodeHex(a + b) == d + (EncodeHex(a[1..]) + EncodeHex(b));
    } else {
      assert a + b == b;
    }
  }

  /** The two digits spelling byte `i` sit at offsets `2i` and `2i+1`. */
  lemma {:induction false} EncodeHexAt(b: seq<bv8>, i: nat)
    requires i < |b|
    ensures EncodeHex(b)[2 * i] == HexDigit(HighNibble(b[i]))
    ensures EncodeHex(b)[2 * i + 1] == HexDigit(LowNibble(b[i]))
  {
    if i > 0 {
      EncodeHexAt(b[1..], i - 1);
    }
  }

  /** The spelling holds lower-case digits only. */
  lemma {:induction false} EncodeHexLower(b: seq<bv8>)
    ensures forall i | 0 <= i < |EncodeHex(b)| :: IsLowerHexDigit(EncodeHex(b)[i])
  {
    if b != [] {
      EncodeHexLower(b[1..]);
      forall i | 2 <= i < |EncodeHex(b)|
        ensures EncodeHex(b)[i] == EncodeHex(b[1..])[i - 2]
      {
      }
    }
  }

  /** Every byte string survives a trip through its hex spelling. */
  lemma {:induction false} DecodeEncodeHex(b: seq<bv8>)
    ensures AllHex(EncodeHex(b)) && |EncodeHex(b)| % 2 == 0
    ensures DecodeHex(EncodeHex(b)) == b
  {
    EncodeHexLower(b);
    if b != [] {
      DecodeEncodeHex(b[1..]);
      PairByteOfDigits(b[0]);
      assert EncodeHex(b)[2..] == EncodeHex(b[1..]);
    }
  }

  /** Sixteen digits spelling the bytes 00 11 22 ... 77, written in two parts. */
  const DigitsExample: string := "00112233" + "44556677"

  lemma DecodeDigitsExample()
    ensures AllHex(DigitsExample) && |DigitsExample| == 16
    ensures DecodeHex(DigitsExample) == [0x00, 0x11, 0x22, 0x33, 0x44, 0x55, 0x66, 0x77]
  {
    DecodeHexAppend("00112233", "44556677");
    DecodeFirstDigits();
    DecodeLastDigits();
  }

  lemma DecodeFirstDigits()
    ensures AllHex("00112233") && DecodeHex("00112233") == [0x00, 0x11, 0x22, 0x33]
  {
    DecodeHexAppend("0011", "2233");
    assert "00112233" == "0011" + "2233";
  }

  lemma DecodeLastDigits()
    ensures AllHex("44556677") && DecodeHex("44556677") == [0x44, 0x55, 0x66, 0x77]
  {
    DecodeHexAppend("4455", "6677");
    assert "44556677" == "4455" + "6677";
  }
}
