/**
 * The canonical 8-4-4-4-12 text form of a UUID (section 4 of RFC 9562) as
 * `uuid_parse` and `uuid_format` of uuidv47.h read and write it.
 *
 * The 36-character form holds 32 hex digits, two per byte, high nibble first,
 * with a hyphen at offsets 8, 13, 18 and 23.  `uuid_parse` reads the digits
 * through a table of their 32 offsets and never looks at the hyphen offsets,
 * nor at anything after offset 35: it accepts any separator character and
 * does not check the length.  Its callers must supply at least 36 characters.
 */
module TextCodec {
  import opened Wrappers
  import opened Hex
  import opened Uuid47

  /** The four hyphen offsets of the canonical form. */
  predicate IsDashPos(p: nat)
  {
    p == 8 || p == 13 || p == 18 || p == 23
  }

  /** The offset of nibble `k` (0-31): `k` plus one for every hyphen before it. */
  function NibblePos(k: nat): (p: nat)
    ensures p >= k
    ensures k < 32 ==> p < 36
  {
    k + (if k >= 8 then 1 else 0) + (if k >= 12 then 1 else 0)
      + (if k >= 16 then 1 else 0) + (if k >= 20 then 1 else 0)
  }

  /** The nibble an offset that is not a hyphen holds: the inverse of `NibblePos`. */
  function NibbleIndex(p: nat): (k: nat)
    requires p < 36 && !IsDashPos(p)
    ensures k < 32 && NibblePos(k) == p
  {
    p - ((if p > 8 then 1 else 0) + (if p > 13 then 1 else 0)
      + (if p > 18 then 1 else 0) + (if p > 23 then 1 else 0))
  }

  /** The `idxs` table of `uuid_parse`: the offsets of the 32 hex digits. */
  const Idxs: seq<nat> := [0, 1, 2, 3, 4, 5, 6, 7, 9, 10, 11, 12, 14, 15, 16, 17,
                           19, 20, 21, 22, 24, 25, 26, 27, 28, 29, 30, 31, 32, 33, 34, 35]

  /** Nibble offsets are in range, are never hyphen offsets, and `NibbleIndex` inverts them. */
  lemma NibblePosFacts(k: nat)
    requires k < 32
    ensures NibblePos(k) < 36 && !IsDashPos(NibblePos(k)) && NibbleIndex(NibblePos(k)) == k
  {
  }

  /** A table that lists, in order, the offsets of the 32 nibbles. */
  predicate IsNibbleTable(idxs: seq<nat>)
  {
    |idxs| == 32 && forall k | 0 <= k < 32 :: idxs[k] == NibblePos(k)
  }

  /** `idxs` is such a table. */
  lemma IdxsIsNibbleTable()
    ensures IsNibbleTable(Idxs)
  {
  }

  /** Both digits of byte `i` are hex digits. */
  predicate PairHex(s: string, i: nat)
    requires |s| >= 36 && i < 16
  {
    IsHexDigit(s[NibblePos(2 * i)]) && IsHexDigit(s[NibblePos(2 * i + 1)])
  }

  /** Every offset `uuid_parse` reads holds a hex digit. */
  predicate AllDigitsHex(s: string)
    requires |s| >= 36
  {
    forall i | 0 <= i < 16 :: PairHex(s, i)
  }

  /** Byte `i` as `uuid_parse` decodes it: the digits at offsets `idxs[2i]` and `idxs[2i+1]`. */
  function ByteAt(s: string, i: nat): bv8
    requires |s| >= 36 && i < 16
    requires PairHex(s, i)
  {
    PairByte(s[NibblePos(2 * i)], s[NibblePos(2 * i + 1)])
  }

  /** The identifier spelt by a string whose digits are all hex. */
  function ParseBytes(s: string): Uuid
    requires |s| >= 36 && AllDigitsHex(s)
  {
    seq(16, i requires 0 <= i < 16 => ByteAt(s, i))
  }

  /** What `uuid_parse` returns and stores: `None` for `false`. */
  function Parse(s: string): Option<Uuid>
    requires |s| >= 36
  {
    if AllDigitsHex(s) then Some(ParseBytes(s)) else None
  }

  /**
   * `uuid_parse`: fails exactly when some digit offset holds a character that
   * is not a hex digit, in which case `out` is untouched because the bytes are
   * staged in a local buffer and copied only at the end.
   */
  method UuidParse(s: string, out: array<bv8>) returns (ok: bool)
    requires |s| >= 36 && out.Length == 16
    modifies out
    ensures ok <==> AllDigitsHex(s)
    ensures ok ==> out[..] == ParseBytes(s)
    ensures !ok ==> out[..] == old(out[..])
  {
    IdxsIsNibbleTable();
    ok := ParseThrough(s, Idxs, out);
  }

  /** The loop of `uuid_parse`, reading the digits through the offset table `idxs`. */
  method ParseThrough(s: string, idxs: seq<nat>, out: array<bv8>) returns (ok: bool)
    requires |s| >= 36 && out.Length == 16 && IsNibbleTable(idxs)
    modifies out
    ensures ok <==> AllDigitsHex(s)
    ensures ok ==> out[..] == ParseBytes(s)
    ensures !ok ==> out[..] == old(out[..])
  {
    var b := new bv8[16];
    for i := 0 to 16
      invariant out[..] == old(out[..])
      invariant forall k | 0 <= k < i :: PairHex(s, k)
      invariant forall k | 0 <= k < i :: b[k] == ByteAt(s, k)
    {
      var h := HexVal(s[idxs[i * 2]]);
      var l := HexVal(s[idxs[i * 2 + 1]]);
      if h < 0 || l < 0 {
        assert !PairHex(s, i);
        return false;
      }
      b[i] := ((h as bv8) << 4) | (l as bv8);
    }
    forall i | 0 <= i < 16 {
      out[i] := b[i];
    }
    ok := true;
  }

  /** Nibble `k` of an identifier as a lower-case digit: even `k` the high nibble of byte `k/2`. */
  function NibbleChar(u: Uuid, k: nat): char
    requires k < 32
  {
    if k % 2 == 0 then HexDigit(HighNibble(u[k / 2])) else HexDigit(LowNibble(u[k / 2]))
  }

  /** The character `uuid_format` writes at offset `p`. */
  function FormatChar(u: Uuid, p: nat): char
    requires p < 36
  {
    if IsDashPos(p) then '-' else NibbleChar(u, NibbleIndex(p))
  }

  /** The 36 characters `uuid_format` writes before the terminating NUL. */
  function Format(u: Uuid): (r: string)
    ensures |r| == 36
    ensures forall p | 0 <= p < 36 :: (r[p] == '-') == IsDashPos(p)
    ensures forall p | 0 <= p < 36 && !IsDashPos(p) :: IsLowerHexDigit(r[p])
  {
    seq(36, p requires 0 <= p < 36 => FormatChar(u, p))
  }

  /** Hyphens emitted before byte `i`: one before each of bytes 4, 6, 8 and 10. */
  function DashesBeforeByte(i: nat): nat
  {
    (if i > 4 then 1 else 0) + (if i > 6 then 1 else 0) + (if i > 8 then 1 else 0) + (if i > 10 then 1 else 0)
  }

  /**
   * `uuid_format`: writes the canonical form into a 37-character buffer,
   * hyphens before bytes 4, 6, 8 and 10, two lower-case digits per byte, and
   * a NUL at offset 36.
   */
  method UuidFormat(u: Uuid, out: array<char>)
    requires out.Length == 37
    modifies out
    ensures out[..36] == Format(u)
    ensures out[36] == '\0'
  {
    var j := 0;
    for i := 0 to 16
      invariant j == 2 * i + DashesBeforeByte(i)
      invariant forall p | 0 <= p < j :: out[p] == FormatChar(u, p)
    {
      if i == 4 || i == 6 || i == 8 || i == 10 {
        out[j] := '-';
        j := j + 1;
      }
      assert NibbleIndex(j) == 2 * i;
      out[j] := HexDigit(HighNibble(u[i]));
      j := j + 1;
      assert NibbleIndex(j) == 2 * i + 1;
      out[j] := HexDigit(LowNibble(u[i]));
      j := j + 1;
    }
    out[36] := '\0';
  }

  /** The two digits `uuid_format` writes for byte `i`, high nibble first. */
  lemma FormatAtByte(u: Uuid, i: nat)
    requires i < 16
    ensures NibblePos(2 * i) < 36 && Format(u)[NibblePos(2 * i)] == HexDigit(HighNibble(u[i]))
    ensures NibblePos(2 * i + 1) < 36 && Format(u)[NibblePos(2 * i + 1)] == HexDigit(LowNibble(u[i]))
  {
    NibblePosFacts(2 * i);
    NibblePosFacts(2 * i + 1);
  }

  /** Formatting then parsing gives every identifier back. */
  lemma ParseFormat(u: Uuid)
    ensures Parse(Format(u)) == Some(u)
  {
    var s := Format(u);
    forall i | 0 <= i < 16
      ensures PairHex(s, i) && ByteAt(s, i) == u[i]
    {
      FormatAtByte(u, i);
      PairByteOfDigits(u[i]);
    }
    assert AllDigitsHex(s);
    assert ParseBytes(s) == u;
  }

  /**
   * The rule `uuid_parse` applies, stated on offsets: it succeeds exactly
   * when every offset other than 8, 13, 18 and 23 among the first 36 holds a
   * hex digit of either case.
   */
  lemma AllDigitsHexOffsets(s: string)
    requires |s| >= 36
    ensures AllDigitsHex(s) <==> forall p | 0 <= p < 36 && !IsDashPos(p) :: IsHexDigit(s[p])
  {
    if AllDigitsHex(s) {
      forall p | 0 <= p < 36 && !IsDashPos(p)
        ensures IsHexDigit(s[p])
      {
        var k := NibbleIndex(p);
        assert PairHex(s, k / 2);
        assert k == 2 * (k / 2) || k == 2 * (k / 2) + 1;
      }
    }
    if forall p | 0 <= p < 36 && !IsDashPos(p) :: IsHexDigit(s[p]) {
      forall i | 0 <= i < 16
        ensures PairHex(s, i)
      {
        NibblePosFacts(2 * i);
        NibblePosFacts(2 * i + 1);
      }
    }
  }

  /** A string in canonical form: 36 characters, the four hyphens, lower-case digits elsewhere. */
  predicate IsCanonical(s: string)
  {
    |s| == 36
    && (forall p | 0 <= p < 36 && IsDashPos(p) :: s[p] == '-')
    && (forall p | 0 <= p < 36 && !IsDashPos(p) :: IsLowerHexDigit(s[p]))
  }

  /** A canonical string is parsed successfully. */
  lemma CanonicalParses(s: string)
    requires IsCanonical(s)
    ensures AllDigitsHex(s)
  {
    forall i | 0 <= i < 16
      ensures PairHex(s, i)
    {
      NibblePosFacts(2 * i);
      NibblePosFacts(2 * i + 1);
    }
  }

  /** Formatting the bytes of a canonical string gives back its two digits of byte `i`. */
  lemma FormatParseByte(s: string, i: nat)
    requires IsCanonical(s) && AllDigitsHex(s) && i < 16
    ensures Format(ParseBytes(s))[NibblePos(2 * i)] == s[NibblePos(2 * i)]
    ensures Format(ParseBytes(s))[NibblePos(2 * i + 1)] == s[NibblePos(2 * i + 1)]
  {
    var h := s[NibblePos(2 * i)];
    var l := s[NibblePos(2 * i + 1)];
    FormatAtByte(ParseBytes(s), i);
    NibblePosFacts(2 * i);
    NibblePosFacts(2 * i + 1);
    HexDigitOfHexVal(h);
    HexDigitOfHexVal(l);
  }

  /** Parsing then formatting gives every canonical string back. */
  lemma FormatParse(s: string)
    requires IsCanonical(s)
    ensures Parse(s).Some? && Format(Parse(s).value) == s
  {
    CanonicalParses(s);
    var f := Format(ParseBytes(s));
    forall p | 0 <= p < 36
      ensures f[p] == s[p]
    {
      if !IsDashPos(p) {
        var k := NibbleIndex(p);
        FormatParseByte(s, k / 2);
        assert k == 2 * (k / 2) || k == 2 * (k / 2) + 1;
      }
    }
  }

  /** `uuid_parse` reads only the 32 digit offsets: the separators and any trailing text are ignored. */
  lemma ParseIgnoresSeparators(s: string, t: string)
    requires |s| >= 36 && |t| >= 36
    requires forall p | 0 <= p < 36 && !IsDashPos(p) :: s[p] == t[p]
    ensures Parse(s) == Parse(t)
  {
    forall i | 0 <= i < 16
      ensures s[NibblePos(2 * i)] == t[NibblePos(2 * i)] && s[NibblePos(2 * i + 1)] == t[NibblePos(2 * i + 1)]
      ensures PairHex(s, i) == PairHex(t, i)
    {
      NibblePosFacts(2 * i);
      NibblePosFacts(2 * i + 1);
    }
    assert AllDigitsHex(s) == AllDigitsHex(t);
    if AllDigitsHex(s) {
      assert ParseBytes(s) == ParseBytes(t);
    }
  }

  /** The example string of the round-trip test, in canonical form. */
  const Example: string := "00000000-0000-7000-8000-000000000000"

  lemma ExampleIsCanonical()
    ensures IsCanonical(Example)
  {
  }

  /** The example parses to an identifier of version 7 with the RFC variant. */
  lemma ParseExample()
    ensures Parse(Example).Some?
    ensures Version(Parse(Example).value) == 7 && HasRfcVariant(Parse(Example).value)
  {
    ExampleIsCanonical();
    CanonicalParses(Example);
    NibblePosFacts(12);
    NibblePosFacts(16);
    assert ParseBytes(Example)[6] == PairByte('7', '0');
    assert ParseBytes(Example)[8] == PairByte('8', '0');
  }

  /** The all-`z` string is rejected. */
  lemma ParseRejectsExample()
    ensures Parse("zzzzzzzz-zzzz-zzzz-zzzz-zzzzzzzzzzzz") == None
  {
    assert !PairHex("zzzzzzzz-zzzz-zzzz-zzzz-zzzzzzzzzzzz", 0);
  }
}
