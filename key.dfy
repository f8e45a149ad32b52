/**
 * The SipHash key of the PostgreSQL extension (uuid47_pg.c): the parser of
 * the `uuid47.key` setting (`parse_key_from_guc` with its helpers
 * `hex_nibble` and `parse_hex_bytes_exact`) and the conversion of a 16-byte
 * `bytea` (`key_from_bytea`).
 *
 * The setting is read with every white-space character removed.  What is
 * left is either two halves of 16 hex digits joined by the first `:`, each
 * half optionally prefixed `0x` or `0X`, or 32 hex digits optionally
 * prefixed `0x`.  Every 16-digit half spells 8 bytes, which are read as a
 * little-endian 64-bit word.
 */
module KeyParse {
  import opened Wrappers
  import opened Bytes
  import opened Hex
  import opened Uuid47

  /** `isspace` in the C locale: space, tab, newline, vertical tab, form feed, carriage return. */
  predicate IsSpace(c: char)
  {
    c == ' ' || c == '\t' || c == '\n' || c == '\U{0B}' || c == '\U{0C}' || c == '\r'
  }

  /** The setting with its white space removed, as the copy loop into `compact[]` leaves it. */
  function Compact(s: string): (r: string)
    ensures |r| <= |s|
    ensures forall i | 0 <= i < |r| :: !IsSpace(r[i])
  {
    if s == [] then []
    else Compact(s[..|s| - 1]) + (if IsSpace(s[|s| - 1]) then [] else [s[|s| - 1]])
  }

  /** Removing white space from a concatenation removes it from each part. */
  lemma {:induction false} CompactAppend(a: string, b: string)
    ensures Compact(a + b) == Compact(a) + Compact(b)
  {
    if b != [] {
      assert (a + b)[..|a + b| - 1] == a + b[..|b| - 1];
      CompactAppend(a, b[..|b| - 1]);
    } else {
      assert a + b == a;
    }
  }

  /** A string without white space is left as it is. */
  lemma {:induction false} CompactNoSpace(s: string)
    requires forall i | 0 <= i < |s| :: !IsSpace(s[i])
    ensures Compact(s) == s
  {
    if s != [] {
      CompactNoSpace(s[..|s| - 1]);
    }
  }

  /** Removing white space twice is removing it once. */
  lemma CompactIdempotent(s: string)
    ensures Compact(Compact(s)) == Compact(s)
  {
    CompactNoSpace(Compact(s));
  }

  /** The index `strchr` finds: the first occurrence of `c`, if any. */
  function IndexOf(s: string, c: char): (r: Option<nat>)
    ensures r.None? <==> c !in s
    ensures r.Some? ==> r.value < |s| && s[r.value] == c && c !in s[..r.value]
  {
    if s == [] then None
    else if s[0] == c then Some(0)
    else match IndexOf(s[1..], c)
      case None => None
      case Some(i) =>
        assert s[..i + 1] == [s[0]] + s[1..][..i];
        Some(i + 1)
  }

  /** A text starting `0x` or `0X`. */
  predicate HasHexPrefix(t: string)
  {
    |t| >= 2 && t[0] == '0' && (t[1] == 'x' || t[1] == 'X')
  }

  /** The text without its optional `0x`/`0X` prefix. */
  function StripHexPrefix(t: string): string
  {
    if HasHexPrefix(t) then t[2..] else t
  }

  /** `parse_hex_bytes_exact(s, 8, buf)` then `rd64le(buf)`: one half of the key. */
  function Half(t: string): (r: Option<bv64>)
    requires |t| == 16
    ensures r.Some? <==> AllHex(t)
  {
    if AllHex(t) then Some(Rd64le(DecodeHex(t))) else None
  }

  /** The eight little-endian bytes of a half are the bytes its digits spell. */
  lemma HalfBytes(t: string)
    requires |t| == 16 && AllHex(t)
    ensures Le64(Half(t).value) == DecodeHex(t)
  {
    Le64OfRd64le(DecodeHex(t));
  }

  /** The key spelt by two 16-digit halves. */
  function KeyOfHalves(lhs: string, rhs: string): (r: Option<Key>)
    requires |lhs| == 16 && |rhs| == 16
    ensures r.Some? <==> AllHex(lhs) && AllHex(rhs)
  {
    match (Half(lhs), Half(rhs))
    case (Some(k0), Some(k1)) => Some(Key(k0, k1))
    case _ => None
  }

  /** The key spelt by the two sides of `:` once their prefixes are dropped. */
  function KeyOfParts(lhs: string, rhs: string): Option<Key>
  {
    if |lhs| != 16 || |rhs| != 16 then None else KeyOfHalves(lhs, rhs)
  }

  /** The key spelt by a setting whose white space is already removed. */
  function KeyFromCompact(c: string): (r: Option<Key>)
    ensures r.Some? ==> 32 <= |c| <= 37
  {
    match IndexOf(c, ':')
    case Some(i) => KeyOfParts(StripHexPrefix(c[..i]), StripHexPrefix(c[i + 1..]))
    case None =>
      var t := StripHexPrefix(c);
      if |t| != 32 then None else KeyOfHalves(t[..16], t[16..])
  }

  /**
   * `parse_key_from_guc`: the key the setting spells, or `None` when it is
   * unset (`None`), empty, or not of either accepted form.
   */
  function KeyFromGuc(guc: Option<string>): (r: Option<Key>)
    ensures r.Some? ==> guc.Some? && 32 <= |Compact(guc.value)| <= 37
  {
    if guc.None? || guc.value == [] then None else KeyFromCompact(Compact(guc.value))
  }

  /** Removing white space skips a white-space character wherever it stands. */
  lemma CompactSkipsSpace(a: string, c: char, b: string)
    requires IsSpace(c)
    ensures Compact(a + [c] + b) == Compact(a + b)
  {
    CompactAppend(a + [c], b);
    CompactAppend(a, [c]);
    CompactAppend(a, b);
    assert [c][..0] == [];
  }

  /** White space anywhere in the setting is ignored. */
  lemma KeyFromGucIgnoresSpace(a: string, c: char, b: string)
    requires IsSpace(c) && a + b != []
    ensures KeyFromGuc(Some(a + [c] + b)) == KeyFromGuc(Some(a + b))
  {
    CompactSkipsSpace(a, c, b);
  }

  /** Digits, as `HexDigit` writes them, are neither white space, `:` nor `x`. */
  lemma EncodeHexPlain(b: seq<bv8>)
    ensures forall i | 0 <= i < |EncodeHex(b)| :: !IsSpace(EncodeHex(b)[i])
    ensures ':' !in EncodeHex(b)
    ensures !HasHexPrefix(EncodeHex(b))
  {
    EncodeHexLower(b);
  }

  /** The first `:` of "lhs:rhs" is the one after `lhs` when `lhs` has none. */
  lemma IndexOfJoin(lhs: string, rhs: string)
    requires ':' !in lhs
    ensures IndexOf(lhs + ":" + rhs, ':') == Some(|lhs|)
  {
    var s := lhs + ":" + rhs;
    assert s[|lhs|] == ':';
    assert s[..|lhs|] == lhs;
  }

  /** Two unprefixed 16-character halves joined by `:` are parsed half by half. */
  lemma KeyFromCompactColon(lhs: string, rhs: string)
    requires |lhs| == 16 && |rhs| == 16 && ':' !in lhs
    requires !HasHexPrefix(lhs) && !HasHexPrefix(rhs)
    ensures KeyFromCompact(lhs + ":" + rhs) == KeyOfHalves(lhs, rhs)
  {
    var s := lhs + ":" + rhs;
    IndexOfJoin(lhs, rhs);
    assert s[..16] == lhs && s[17..] == rhs;
  }

  /** The 16 digits of a little-endian word read back as the word. */
  lemma HalfOfLe64(k: bv64)
    ensures |EncodeHex(Le64(k))| == 16 && Half(EncodeHex(Le64(k))) == Some(k)
  {
    DecodeEncodeHex(Le64(k));
    Rd64leOfLe64(k);
  }

  /** The two-word form "k0:k1" with the digits of each little-endian word reads back as the key. */
  lemma KeyFromGucColonForm(k: Key)
    ensures KeyFromGuc(Some(EncodeHex(Le64(k.k0)) + ":" + EncodeHex(Le64(k.k1)))) == Some(k)
  {
    var lhs := EncodeHex(Le64(k.k0));
    var rhs := EncodeHex(Le64(k.k1));
    EncodeHexPlain(Le64(k.k0));
    EncodeHexPlain(Le64(k.k1));
    CompactNoSpace(lhs + ":" + rhs);
    HalfOfLe64(k.k0);
    HalfOfLe64(k.k1);
    KeyFromCompactColon(lhs, rhs);
  }

  /** The first `:` of "lhs:rhs" splits it back into its two sides when `lhs` has none. */
  lemma KeyFromCompactJoin(lhs: string, rhs: string)
    requires ':' !in lhs
    ensures KeyFromCompact(lhs + ":" + rhs) == KeyOfParts(StripHexPrefix(lhs), StripHexPrefix(rhs))
  {
    var s := lhs + ":" + rhs;
    IndexOfJoin(lhs, rhs);
    assert s[..|lhs|] == lhs && s[|lhs| + 1..] == rhs;
  }

  /** Hex digits behind a `0x`/`0X` prefix: no `:`, no white space, and the prefix is dropped. */
  lemma PrefixedDigits(x: char, t: string)
    requires (x == 'x' || x == 'X') && AllHex(t)
    ensures ':' !in ['0', x] + t
    ensures forall i | 0 <= i < |['0', x] + t| :: !IsSpace((['0', x] + t)[i])
    ensures StripHexPrefix(['0', x] + t) == t
  {
    var p := ['0', x] + t;
    forall i | 0 <= i < |p| ensures p[i] != ':' && !IsSpace(p[i]) {
      if i >= 2 { assert p[i] == t[i - 2]; }
    }
    assert p[2..] == t;
  }

  /** Each side of "lhs:rhs" may carry its own `0x` or `0X`: both prefixes are dropped. */
  lemma ColonFormPrefixed(lhs: string, rhs: string, x0: char, x1: char)
    requires |lhs| == 16 && |rhs| == 16 && AllHex(lhs) && AllHex(rhs)
    requires (x0 == 'x' || x0 == 'X') && (x1 == 'x' || x1 == 'X')
    ensures KeyFromCompact((['0', x0] + lhs) + ":" + (['0', x1] + rhs)) == KeyOfHalves(lhs, rhs)
  {
    PrefixedDigits(x0, lhs);
    PrefixedDigits(x1, rhs);
    KeyFromCompactJoin(['0', x0] + lhs, ['0', x1] + rhs);
  }

  /** Joining two texts without white space by `:` gives a text without white space. */
  lemma JoinNoSpace(lhs: string, rhs: string)
    requires forall i | 0 <= i < |lhs| :: !IsSpace(lhs[i])
    requires forall i | 0 <= i < |rhs| :: !IsSpace(rhs[i])
    ensures Compact(lhs + ":" + rhs) == lhs + ":" + rhs
  {
    CompactAppend(lhs + ":", rhs);
    CompactAppend(lhs, ":");
    CompactNoSpace(lhs);
    CompactNoSpace(rhs);
    CompactNoSpace(":");
  }

  /** The setting "0xlhs:0Xrhs", with either case of each `x`, is parsed half by half. */
  lemma KeyFromGucPrefixedColon(lhs: string, rhs: string, x0: char, x1: char)
    requires |lhs| == 16 && |rhs| == 16 && AllHex(lhs) && AllHex(rhs)
    requires (x0 == 'x' || x0 == 'X') && (x1 == 'x' || x1 == 'X')
    ensures KeyFromGuc(Some((['0', x0] + lhs) + ":" + (['0', x1] + rhs))) == KeyOfHalves(lhs, rhs)
  {
    PrefixedDigits(x0, lhs);
    PrefixedDigits(x1, rhs);
    JoinNoSpace(['0', x0] + lhs, ['0', x1] + rhs);
    ColonFormPrefixed(lhs, rhs, x0, x1);
  }

  /** The setting "0xk0:0Xk1" with the digits of each little-endian word reads back as the key. */
  lemma KeyFromGucPrefixedColonForm(k: Key, x0: char, x1: char)
    requires (x0 == 'x' || x0 == 'X') && (x1 == 'x' || x1 == 'X')
    ensures KeyFromGuc(Some((['0', x0] + EncodeHex(Le64(k.k0))) + ":" + (['0', x1] + EncodeHex(Le64(k.k1))))) == Some(k)
  {
    HalfOfLe64(k.k0);
    HalfOfLe64(k.k1);
    KeyFromGucPrefixedColon(EncodeHex(Le64(k.k0)), EncodeHex(Le64(k.k1)), x0, x1);
  }

  /** The error of `key_from_bytea` (`require_len`) and of `key_from_guc_or_error`. */
  datatype KeyError = WrongLength(expected: nat, got: nat) | KeyNotSet

  /**
   * `key_from_bytea`: the 16 bytes k0 || k1, each half a little-endian
   * word; any other length is an error naming the length.
   */
  function KeyFromBytea(b: seq<bv8>): (r: Result<Key, KeyError>)
    ensures r.Success? <==> |b| == 16
    ensures r.Failure? ==> r.error == WrongLength(16, |b|)
    ensures r.Success? ==> Le64(r.value.k0) + Le64(r.value.k1) == b
  {
    if |b| != 16 then Failure(WrongLength(16, |b|))
    else
      Le64OfRd64le(b[..8]);
      Le64OfRd64le(b[8..]);
      assert b == b[..8] + b[8..][..8];
      Success(Key(Rd64le(b[..8]), Rd64le(b[8..])))
  }

  /** The 32-digit spelling of a 16-byte `bytea` sets the same key as the `bytea` itself. */
  lemma KeyFromGucAgreesWithBytea(b: seq<bv8>)
    requires |b| == 16
    ensures KeyFromGuc(Some(EncodeHex(b))) == Some(KeyFromBytea(b).value)
  {
    var s := EncodeHex(b);
    EncodeHexPlain(b);
    CompactNoSpace(s);
    assert b == b[..8] + b[8..];
    EncodeHexAppend(b[..8], b[8..]);
    assert s[..16] == EncodeHex(b[..8]) && s[16..] == EncodeHex(b[8..]);
    DecodeEncodeHex(b[..8]);
    DecodeEncodeHex(b[8..]);
  }

  /** `key_from_guc_or_error`: the key, or the error that the setting is unset or invalid. */
  function KeyFromGucOrError(guc: Option<string>): (r: Result<Key, KeyError>)
    ensures r.Success? <==> KeyFromGuc(guc).Some?
    ensures r.Success? ==> r.value == KeyFromGuc(guc).value
    ensures r.Failure? ==> r.error == KeyNotSet
  {
    match KeyFromGuc(guc)
    case Some(k) => Success(k)
    case None => Failure(KeyNotSet)
  }

  /** An optional `0x` in front of the 32 digits is skipped. */
  lemma KeyFromGucHexPrefix(b: seq<bv8>)
    requires |b| == 16
    ensures KeyFromGuc(Some("0x" + EncodeHex(b))) == KeyFromGuc(Some(EncodeHex(b)))
  {
    var s := EncodeHex(b);
    EncodeHexPlain(b);
    CompactNoSpace(s);
    CompactNoSpace("0x" + s);
    assert ':' !in "0x" + s;
    assert ("0x" + s)[2..] == s;
  }

  /** Both digits of pair `j` are hex digits. */
  predicate PairIsHex(s: string, j: nat)
    requires 2 * j + 1 < |s|
  {
    IsHexDigit(s[2 * j]) && IsHexDigit(s[2 * j + 1])
  }

  /** The first `2n` characters are hex digits exactly when each of the first `n` pairs is. */
  lemma AllHexByPairs(s: string, n: nat)
    requires 2 * n <= |s|
    ensures AllHex(s[..2 * n]) <==> forall j | 0 <= j < n :: PairIsHex(s, j)
  {
    if forall j | 0 <= j < n :: PairIsHex(s, j) {
      forall k | 0 <= k < 2 * n
        ensures IsHexDigit(s[..2 * n][k])
      {
        assert PairIsHex(s, k / 2);
        assert k == 2 * (k / 2) || k == 2 * (k / 2) + 1;
      }
    }
    if AllHex(s[..2 * n]) {
      forall j | 0 <= j < n
        ensures PairIsHex(s, j)
      {
        assert s[..2 * n][2 * j] == s[2 * j] && s[..2 * n][2 * j + 1] == s[2 * j + 1];
      }
    }
  }

  /** The first `j` pairs of `s` are hex digits and `d` holds the bytes they spell. */
  predicate PairsStored(s: string, d: seq<bv8>, j: nat)
  {
    2 * j <= |s| && j <= |d| &&
    forall k | 0 <= k < j :: PairIsHex(s, k) && d[k] == PairByte(s[2 * k], s[2 * k + 1])
  }

  /** Bytes stored pair by pair are the decoding of the prefix. */
  lemma DecodeStoredPairs(s: string, d: seq<bv8>, n: nat)
    requires PairsStored(s, d, n)
    ensures AllHex(s[..2 * n]) && DecodeHex(s[..2 * n]) == d[..n]
  {
    AllHexByPairs(s, n);
    var t := s[..2 * n];
    forall k | 0 <= k < n
      ensures d[..n][k] == PairByte(t[2 * k], t[2 * k + 1])
    {
      assert PairIsHex(s, k);
    }
    DecodeHexOfPairs(t, d[..n]);
  }

  /**
   * `parse_hex_bytes_exact`: decodes the first `2n` characters into `out[0..n)`
   * when they are all hex digits.  On failure the pairs before the first bad
   * pair have already been stored and the rest of `out` is untouched.
   */
  method ParseHexBytesExact(s: string, n: nat, out: array<bv8>) returns (ok: bool)
    requires 2 * n <= |s| && n <= out.Length
    modifies out
    ensures ok <==> AllHex(s[..2 * n])
    ensures ok ==> out[..n] == DecodeHex(s[..2 * n])
    ensures out[n..] == old(out[n..])
    ensures !ok ==> exists j | 0 <= j < n ::
      !PairIsHex(s, j) && PairsStored(s, out[..], j) && out[j..] == old(out[j..])
  {
    for i := 0 to n
      invariant PairsStored(s, out[..], i)
      invariant out[i..] == old(out[i..])
    {
      var h := HexVal(s[2 * i]);
      var l := HexVal(s[2 * i + 1]);
      if h < 0 || l < 0 {
        assert !PairIsHex(s, i);
        AllHexByPairs(s, n);
        return false;
      }
      out[i] := ((h as bv8) << 4) | (l as bv8);
    }
    DecodeStoredPairs(s, out[..], n);
    return true;
  }

  /**
   * The copy loop of `parse_key_from_guc`: the characters that are not white
   * space go to `compact[0..len)`, followed by a NUL.
   */
  method CompactInto(s: string, compact: array<char>) returns (len: nat)
    requires compact.Length == 129 && |Compact(s)| <= 128
    modifies compact
    ensures len == |Compact(s)| && compact[..len] == Compact(s) && compact[len] == '\0'
  {
    len := 0;
    for p := 0 to |s|
      invariant len <= |Compact(s)|
      invariant len == |Compact(s[..p])| && compact[..len] == Compact(s[..p])
    {
      assert s[..p + 1][..p] == s[..p];
      assert s == s[..p + 1] + s[p + 1..];
      CompactAppend(s[..p + 1], s[p + 1..]);
      if !IsSpace(s[p]) {
        compact[len] := s[p];
        len := len + 1;
      }
    }
    assert s[..|s|] == s;
    compact[len] := '\0';
  }

  /** `strchr(compact, c)` on the string `compact[0..len)`. */
  method StrChr(compact: array<char>, len: nat, c: char) returns (r: Option<nat>)
    requires len <= compact.Length
    ensures r == IndexOf(compact[..len], c)
  {
    var j := 0;
    while j < len && compact[j] != c
      invariant j <= len && c !in compact[..j]
    {
      assert compact[..j + 1] == compact[..j] + [compact[j]];
      j := j + 1;
    }
    if j < len {
      assert compact[..len][..j] == compact[..j];
      return Some(j);
    }
    assert compact[..len] == compact[..j];
    return None;
  }

  /** `parse_hex_bytes_exact(t, 8, buf)` then `rd64le(buf)` for one half of the key. */
  method ReadHalf(t: string, buf: array<bv8>) returns (ok: bool, w: bv64)
    requires |t| == 16 && buf.Length == 16
    modifies buf
    ensures ok <==> Half(t).Some?
    ensures ok ==> w == Half(t).value
  {
    ok := ParseHexBytesExact(t, 8, buf);
    w := 0;
    if ok {
      assert t[..16] == t;
      w := Rd64le(buf[..8]);
    }
  }

  /**
   * The two halves read in turn into `key`: a bad right half leaves the left
   * one already stored in `key.k0`.
   */
  method ReadKey(lhs: string, rhs: string, prior: Key, buf: array<bv8>) returns (ok: bool, key: Key)
    requires |lhs| == 16 && |rhs| == 16 && buf.Length == 16
    modifies buf
    ensures ok <==> KeyOfHalves(lhs, rhs).Some?
    ensures ok ==> key == KeyOfHalves(lhs, rhs).value
    ensures !ok ==> key == prior || (Half(lhs).Some? && key == prior.(k0 := Half(lhs).value))
  {
    var w;
    key := prior;
    ok, w := ReadHalf(lhs, buf);
    if !ok {
      return;
    }
    key := key.(k0 := w);
    ok, w := ReadHalf(rhs, buf);
    if ok {
      key := key.(k1 := w);
    }
  }

  /** Drops an optional `0x`/`0X` from the text `a[p..p+n)`. */
  method SkipHexPrefix(a: array<char>, p: nat, n: nat) returns (p': nat, n': nat)
    requires p + n <= a.Length
    ensures p' + n' == p + n && a[p'..p' + n'] == StripHexPrefix(a[p..p + n])
  {
    p', n' := p, n;
    if n >= 2 && a[p] == '0' && (a[p + 1] == 'x' || a[p + 1] == 'X') {
      p', n' := p + 2, n - 2;
      assert a[p'..p' + n'] == a[p..p + n][2..];
    }
  }

  /** The `lhs:rhs` branch of `parse_key_from_guc`, `colon` being the first `:`. */
  method ReadColonForm(compact: array<char>, len: nat, ghost cs: string, colon: nat, prior: Key)
    returns (ok: bool, key: Key)
    requires colon < len <= compact.Length && cs == compact[..len]
    requires IndexOf(cs, ':') == Some(colon)
    ensures ok <==> KeyFromCompact(cs).Some?
    ensures ok ==> key == KeyFromCompact(cs).value
    ensures !ok ==> key.k1 == prior.k1
  {
    var p0, n0 := SkipHexPrefix(compact, 0, colon);
    var m := len - (colon + 1);
    var p1, n1 := SkipHexPrefix(compact, colon + 1, m);
    var lhs, rhs := compact[p0..p0 + n0], compact[p1..p1 + n1];
    KeyFromCompactAtColon(cs, colon, compact[0..0 + colon], compact[colon + 1..colon + 1 + m]);
    var buf := new bv8[16];
    ok, key := ReadParts(lhs, rhs, prior, buf);
  }

  /** The key `KeyFromCompact` reads when `colon` is the first `:`. */
  lemma KeyFromCompactAtColon(cs: string, colon: nat, left: string, right: string)
    requires IndexOf(cs, ':') == Some(colon)
    requires left == cs[..colon] && right == cs[colon + 1..]
    ensures KeyFromCompact(cs) == KeyOfParts(StripHexPrefix(left), StripHexPrefix(right))
  {
  }

  /** The length check and the two reads of the `lhs:rhs` branch. */
  method ReadParts(lhs: string, rhs: string, prior: Key, buf: array<bv8>) returns (ok: bool, key: Key)
    requires buf.Length == 16
    modifies buf
    ensures ok <==> KeyOfParts(lhs, rhs).Some?
    ensures ok ==> key == KeyOfParts(lhs, rhs).value
    ensures !ok ==> key.k1 == prior.k1
  {
    if |lhs| != 16 || |rhs| != 16 {
      return false, prior;
    }
    ok, key := ReadKey(lhs, rhs, prior, buf);
  }

  /**
   * The branch of `parse_key_from_guc` without `:`: an optional `0x` is moved
   * out of `compact` and the 32 digits that must remain are read.
   */
  method ReadPlainForm(compact: array<char>, len: nat, prior: Key) returns (ok: bool, key: Key)
    requires len < compact.Length && ':' !in compact[..len]
    modifies compact
    ensures ok <==> KeyFromCompact(old(compact[..len])).Some?
    ensures ok ==> key == KeyFromCompact(old(compact[..len])).value
    ensures !ok ==> key.k1 == prior.k1
  {
    ghost var cs := compact[..len];
    var n := len;
    if n >= 2 && compact[0] == '0' && (compact[1] == 'x' || compact[1] == 'X') {
      forall i | 0 <= i < n - 2 {
        compact[i] := compact[i + 2];
      }
      n := n - 2;
      compact[n] := '\0';
    }
    assert compact[..n] == StripHexPrefix(cs);
    if n != 32 {
      return false, prior;
    }
    var buf := new bv8[16];
    ok, key := ReadKey(compact[..16], compact[16..32], prior, buf);
    assert compact[..n][..16] == compact[..16] && compact[..n][16..] == compact[16..32];
  }

  /**
   * `parse_key_from_guc`: on success `key` is the key the setting spells; on
   * failure `key` is `prior` except that `k0` may already have been stored.
   */
  method ParseKeyFromGuc(guc: Option<string>, prior: Key) returns (ok: bool, key: Key)
    requires guc.Some? ==> |Compact(guc.value)| <= 128
    ensures ok <==> KeyFromGuc(guc).Some?
    ensures ok ==> key == KeyFromGuc(guc).value
    ensures !ok ==> key.k1 == prior.k1
  {
    if guc.None? || |guc.value| == 0 {
      return false, prior;
    }
    var compact := new char[129];
    var len := CompactInto(guc.value, compact);
    var colon := StrChr(compact, len, ':');
    if colon.Some? {
      ok, key := ReadColonForm(compact, len, compact[..len], colon.value, prior);
    } else {
      ok, key := ReadPlainForm(compact, len, prior);
    }
  }

  /** The half "0011223344556677" is the little-endian word 0x7766554433221100. */
  lemma HalfExampleValue()
    ensures Half(DigitsExample) == Some(0x7766554433221100)
  {
    DecodeDigitsExample();
    assert Rd64le(DecodeHex(DigitsExample)) == 0x7766554433221100;
  }
}
