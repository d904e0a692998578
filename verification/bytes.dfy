/**
 * Bytes and the byte-wise lexicographic order that Rust derives for `[u8]`
 * and `Vec<u8>`: compare position by position, and a proper prefix sorts first.
 */
module Bytes {

  type Byte = bv8

  datatype Ordering = Less | Equal | Greater

  /**
   * Rust's `Ord::cmp` on byte slices. Only strings of equal length can be
   * `Equal`, and a proper prefix sorts before every extension of it.
   */
  function Compare(a: seq<Byte>, b: seq<Byte>): (r: Ordering)
    ensures r == Equal ==> |a| == |b|
    ensures |a| < |b| && a == b[..|a|] ==> r == Less
    ensures |b| < |a| && b == a[..|b|] ==> r == Greater
    decreases |a|
  {
    if |a| == 0 then (if |b| == 0 then Equal else Less)
    else if |b| == 0 then Greater
    else if a[0] < b[0] then Less
    else if a[0] > b[0] then Greater
    else Compare(a[1..], b[1..])
  }

  predicate LexLess(a: seq<Byte>, b: seq<Byte>) {
    Compare(a, b) == Less
  }

  function Reverse(s: seq<Byte>): (r: seq<Byte>)
    ensures |r| == |s|
    ensures forall i :: 0 <= i < |s| ==> r[i] == s[|s| - 1 - i]
  {
    if |s| == 0 then [] else Reverse(s[1..]) + [s[0]]
  }

  /** Two byte strings compare `Equal` exactly when they are the same string. */
  lemma {:induction false} CompareEqualIff(a: seq<Byte>, b: seq<Byte>)
    ensures Compare(a, b) == Equal <==> a == b
    decreases |a|
  {
    if |a| != 0 && |b| != 0 && a[0] == b[0] {
      CompareEqualIff(a[1..], b[1..]);
      assert a == [a[0]] + a[1..] && b == [b[0]] + b[1..];
    }
  }

  /** Swapping the operands swaps `Less` and `Greater`. */
  lemma {:induction false} CompareAntisymmetric(a: seq<Byte>, b: seq<Byte>)
    ensures Compare(a, b) == Less <==> Compare(b, a) == Greater
    decreases |a|
  {
    if |a| != 0 && |b| != 0 && a[0] == b[0] {
      CompareAntisymmetric(a[1..], b[1..]);
    }
  }

  lemma {:induction false} LexLessTransitive(a: seq<Byte>, b: seq<Byte>, c: seq<Byte>)
    requires LexLess(a, b) && LexLess(b, c)
    ensures LexLess(a, c)
    decreases |a|
  {
    if |a| != 0 && a[0] == b[0] && b[0] == c[0] {
      LexLessTransitive(a[1..], b[1..], c[1..]);
    }
  }

  /**
   * Comparing two concatenations whose first parts have equal length: the
   * first parts decide, and only when they are equal do the second parts.
   */
  lemma {:induction false} CompareConcat(a1: seq<Byte>, a2: seq<Byte>, b1: seq<Byte>, b2: seq<Byte>)
    requires |a1| == |b1|
    ensures Compare(a1 + a2, b1 + b2) ==
              (if Compare(a1, b1) == Equal then Compare(a2, b2) else Compare(a1, b1))
    decreases |a1|
  {
    if |a1| == 0 {
      assert a1 + a2 == a2 && b1 + b2 == b2;
    } else {
      assert (a1 + a2)[1..] == a1[1..] + a2;
      assert (b1 + b2)[1..] == b1[1..] + b2;
      CompareConcat(a1[1..], a2, b1[1..], b2);
    }
  }

  /**
   * An encoding that is monotone one way round is monotone both ways: if the
   * encodings of `a` and `b` are ordered only as `a` and `b` are, and equal
   * encodings come only from equal values, then `LexLess` on the encodings
   * is exactly `aLessB`.
   */
  lemma LexLessFromForward(ea: seq<Byte>, eb: seq<Byte>, aLessB: bool, bLessA: bool, same: bool)
    requires LexLess(ea, eb) ==> aLessB
    requires LexLess(eb, ea) ==> bLessA
    requires ea == eb ==> same
    requires aLessB ==> !bLessA && !same
    ensures LexLess(ea, eb) <==> aLessB
  {
    CompareEqualIff(ea, eb);
    CompareAntisymmetric(eb, ea);
  }

  lemma CompareSingle(x: Byte, y: Byte)
    ensures Compare([x], [y]) == (if x < y then Less else if x > y then Greater else Equal)
  {
    assert [x][1..] == [] && [y][1..] == [];
  }

  /** Two-byte strings compare on the first byte, then on the second. */
  lemma LexLessPair(x1: Byte, x2: Byte, y1: Byte, y2: Byte)
    ensures LexLess([x1, x2], [y1, y2]) <==> x1 < y1 || (x1 == y1 && x2 < y2)
  {
    assert [x1, x2][1..] == [x2] && [y1, y2][1..] == [y2];
    CompareSingle(x2, y2);
  }

  /** `LexLess` on equal-length-prefixed concatenations, read left to right. */
  lemma LexLessConcat(a1: seq<Byte>, a2: seq<Byte>, b1: seq<Byte>, b2: seq<Byte>)
    requires |a1| == |b1|
    ensures LexLess(a1 + a2, b1 + b2) <==> LexLess(a1, b1) || (a1 == b1 && LexLess(a2, b2))
  {
    CompareConcat(a1, a2, b1, b2);
    CompareEqualIff(a1, b1);
  }
}
