/**
 * The byte order of uuid47 values in uuid47_pg.c: `cmp16`, the sign of
 * `memcmp` over the 16 bytes, and the comparison operators built on it.
 * Because byte 0 is the most significant byte of the timestamp, this order
 * sorts UUIDv7 values by time first.
 */
module Order {
  import opened Uuid47

  /**
   * The sign of `memcmp(a, b, |a|)`: the unsigned comparison of the first
   * byte where the two differ, 0 when there is none.
   */
  function Compare(a: seq<bv8>, b: seq<bv8>): (r: int)
    requires |a| == |b|
    ensures -1 <= r <= 1
    ensures r == 0 <==> a == b
  {
    if a == [] then 0
    else if a[0] < b[0] then -1
    else if a[0] > b[0] then 1
    else
      assert a == [a[0]] + a[1..] && b == [b[0]] + b[1..];
      Compare(a[1..], b[1..])
  }

  /** `a` and `b` agree before offset `i` and `a` has the smaller byte at `i`. */
  predicate LessAt(a: seq<bv8>, b: seq<bv8>, i: nat)
  {
    i < |a| && i < |b| && a[..i] == b[..i] && a[i] < b[i]
  }

  /** Lexicographic order on equally long byte strings, the reference for `Compare`. */
  predicate LexLess(a: seq<bv8>, b: seq<bv8>)
  {
    exists i: nat | i < |a| :: LessAt(a, b, i)
  }

  /** Dropping an equal first byte keeps a difference found further on. */
  lemma LessAtTail(a: seq<bv8>, b: seq<bv8>, i: nat)
    requires |a| == |b| && a != [] && a[0] == b[0]
    ensures LessAt(a, b, i + 1) <==> LessAt(a[1..], b[1..], i)
  {
    if LessAt(a[1..], b[1..], i) {
      assert a[..i + 1] == [a[0]] + a[1..][..i];
      assert b[..i + 1] == [b[0]] + b[1..][..i];
    }
    if LessAt(a, b, i + 1) {
      assert a[1..][..i] == a[..i + 1][1..];
      assert b[1..][..i] == b[..i + 1][1..];
    }
  }

  /** `Compare` answers -1 exactly when `a` is lexicographically smaller. */
  lemma {:induction false} CompareLess(a: seq<bv8>, b: seq<bv8>)
    requires |a| == |b|
    ensures Compare(a, b) == -1 <==> LexLess(a, b)
  {
    if a == [] {
    } else if a[0] < b[0] {
      assert LessAt(a, b, 0);
    } else if a[0] > b[0] {
    } else {
      CompareLess(a[1..], b[1..]);
      if LexLess(a, b) {
        var i: nat :| LessAt(a, b, i);
        LessAtTail(a, b, i - 1);
      }
      if LexLess(a[1..], b[1..]) {
        var i: nat :| LessAt(a[1..], b[1..], i);
        LessAtTail(a, b, i);
      }
    }
  }

  /** Swapping the operands negates the answer. */
  lemma {:induction false} CompareAntisymmetric(a: seq<bv8>, b: seq<bv8>)
    requires |a| == |b|
    ensures Compare(b, a) == -Compare(a, b)
  {
    if a != [] && a[0] == b[0] {
      CompareAntisymmetric(a[1..], b[1..]);
    }
  }

  /** `Compare` answers 1 exactly when `b` is lexicographically smaller. */
  lemma CompareGreater(a: seq<bv8>, b: seq<bv8>)
    requires |a| == |b|
    ensures Compare(a, b) == 1 <==> LexLess(b, a)
  {
    CompareAntisymmetric(a, b);
    CompareLess(b, a);
  }

  /** The order is transitive. */
  lemma {:induction false} CompareTransitive(a: seq<bv8>, b: seq<bv8>, c: seq<bv8>)
    requires |a| == |b| == |c| && Compare(a, b) == -1 && Compare(b, c) == -1
    ensures Compare(a, c) == -1
  {
    if a[0] == b[0] && b[0] == c[0] {
      CompareTransitive(a[1..], b[1..], c[1..]);
    }
  }

  /** The first difference decides: a larger byte after an equal prefix compares greater. */
  lemma {:induction false} CompareAtFirstDifference(a: seq<bv8>, b: seq<bv8>, i: nat)
    requires |a| == |b| && LessAt(b, a, i)
    ensures Compare(a, b) == 1
  {
    CompareGreater(a, b);
  }

  /** `cmp16`: -1, 0 or 1 as `memcmp` orders the two identifiers. */
  function Cmp16(a: Uuid, b: Uuid): (r: int)
    ensures -1 <= r <= 1
    ensures r == 0 <==> a == b
    ensures r == -1 <==> LexLess(a, b)
    ensures r == 1 <==> LexLess(b, a)
  {
    CompareLess(a, b);
    CompareGreater(a, b);
    Compare(a, b)
  }

  /** `uuid47_eq` and `uuid47_ne` test `memcmp(...) == 0` and `!= 0`. */
  function Eq(a: Uuid, b: Uuid): (r: bool)
    ensures r <==> a == b
  {
    Compare(a, b) == 0
  }

  function Ne(a: Uuid, b: Uuid): (r: bool)
    ensures r <==> a != b
  {
    Compare(a, b) != 0
  }

  /** `uuid47_lt`, `uuid47_le`, `uuid47_gt`, `uuid47_ge` compare `cmp16` with 0. */
  function Lt(a: Uuid, b: Uuid): (r: bool)
    ensures r <==> LexLess(a, b)
  {
    Cmp16(a, b) < 0
  }

  function Le(a: Uuid, b: Uuid): (r: bool)
    ensures r <==> a == b || LexLess(a, b)
  {
    Cmp16(a, b) <= 0
  }

  function Gt(a: Uuid, b: Uuid): (r: bool)
    ensures r <==> LexLess(b, a)
  {
    Cmp16(a, b) > 0
  }

  function Ge(a: Uuid, b: Uuid): (r: bool)
    ensures r <==> a == b || LexLess(b, a)
  {
    Cmp16(a, b) >= 0
  }

  /** Exactly one of `<`, `=`, `>` holds, and `<` and `>` are converses. */
  lemma Trichotomy(a: Uuid, b: Uuid)
    ensures (Lt(a, b) && !Eq(a, b) && !Gt(a, b)) || (!Lt(a, b) && Eq(a, b) && !Gt(a, b))
         || (!Lt(a, b) && !Eq(a, b) && Gt(a, b))
    ensures Lt(a, b) <==> Gt(b, a)
  {
    CompareAntisymmetric(a, b);
  }
}
