/**
 * Order laws of the number codec: big-endian byte strings sort as the
 * unsigned numbers they encode, so the `i64` and `f64` encodings, which go
 * through `encode_u64` after their transform, sort in signed order and in
 * the sign-magnitude order of the IEEE bit pattern. The little-endian
 * `i16`/`i32`/`f32` encodings keep no such order.
 */
module NumberOrder {
  import opened Bytes
  import opened Number

  // ---------------------------------------------------------------------------
  // Splitting a word into its high and low halves

  lemma Be32Split(v: bv32)
    ensures BeBytes32(v) == BeBytes16((v >> 16) as bv16) + BeBytes16((v & 0xFFFF) as bv16)
  {
  }

  lemma Be64Split(v: bv64)
    ensures BeBytes64(v) == BeBytes32((v >> 32) as bv32) + BeBytes32((v & 0xFFFF_FFFF) as bv32)
  {
  }

  lemma HighHalfDecides32(a: bv32, b: bv32)
    requires (a >> 16) as bv16 < (b >> 16) as bv16
    ensures a < b
  {
  }

  lemma LowHalfDecides32(a: bv32, b: bv32)
    requires (a >> 16) as bv16 == (b >> 16) as bv16 && (a & 0xFFFF) as bv16 < (b & 0xFFFF) as bv16
    ensures a < b
  {
  }

  lemma HighHalfDecides64(a: bv64, b: bv64)
    requires (a >> 32) as bv32 < (b >> 32) as bv32
    ensures a < b
  {
  }

  lemma LowHalfDecides64(a: bv64, b: bv64)
    requires (a >> 32) as bv32 == (b >> 32) as bv32 && (a & 0xFFFF_FFFF) as bv32 < (b & 0xFFFF_FFFF) as bv32
    ensures a < b
  {
  }

  // ---------------------------------------------------------------------------
  // Big-endian bytes compare as the unsigned numbers

  lemma HalvesDecide16(a: bv16, b: bv16)
    ensures a < b <==> (a >> 8) as Byte < (b >> 8) as Byte
                       || ((a >> 8) as Byte == (b >> 8) as Byte && (a & 0xFF) as Byte < (b & 0xFF) as Byte)
  {
  }

  lemma BeBytes16Order(a: bv16, b: bv16)
    ensures LexLess(BeBytes16(a), BeBytes16(b)) <==> a < b
  {
    LexLessPair((a >> 8) as Byte, (a & 0xFF) as Byte, (b >> 8) as Byte, (b & 0xFF) as Byte);
    HalvesDecide16(a, b);
  }

  lemma BeBytes32Forward(a: bv32, b: bv32)
    requires LexLess(BeBytes32(a), BeBytes32(b))
    ensures a < b
  {
    var ha, la, hb, lb := (a >> 16) as bv16, (a & 0xFFFF) as bv16, (b >> 16) as bv16, (b & 0xFFFF) as bv16;
    Be32Split(a);
    Be32Split(b);
    LexLessConcat(BeBytes16(ha), BeBytes16(la), BeBytes16(hb), BeBytes16(lb));
    if LexLess(BeBytes16(ha), BeBytes16(hb)) {
      HighBytesDecide32(a, b);
    } else {
      LowBytesDecide32(a, b);
    }
  }

  lemma HighBytesDecide32(a: bv32, b: bv32)
    requires LexLess(BeBytes16((a >> 16) as bv16), BeBytes16((b >> 16) as bv16))
    ensures a < b
  {
    BeBytes16Order((a >> 16) as bv16, (b >> 16) as bv16);
    HighHalfDecides32(a, b);
  }

  lemma LowBytesDecide32(a: bv32, b: bv32)
    requires BeBytes16((a >> 16) as bv16) == BeBytes16((b >> 16) as bv16)
    requires LexLess(BeBytes16((a & 0xFFFF) as bv16), BeBytes16((b & 0xFFFF) as bv16))
    ensures a < b
  {
    Be16RoundTrip((a >> 16) as bv16, []);
    Be16RoundTrip((b >> 16) as bv16, []);
    BeBytes16Order((a & 0xFFFF) as bv16, (b & 0xFFFF) as bv16);
    LowHalfDecides32(a, b);
  }

  lemma Be32Injective(a: bv32, b: bv32)
    requires BeBytes32(a) == BeBytes32(b)
    ensures a == b
  {
    Be32RoundTrip(a, []);
    Be32RoundTrip(b, []);
  }

  lemma BeBytes32Order(a: bv32, b: bv32)
    ensures LexLess(BeBytes32(a), BeBytes32(b)) <==> a < b
  {
    var ea, eb := BeBytes32(a), BeBytes32(b);
    BeBytes32ForwardBoth(a, b);
    if ea == eb {
      Be32Injective(a, b);
    }
    LexLessFromForward(ea, eb, a < b, b < a, a == b);
  }

  lemma BeBytes32ForwardBoth(a: bv32, b: bv32)
    ensures LexLess(BeBytes32(a), BeBytes32(b)) ==> a < b
    ensures LexLess(BeBytes32(b), BeBytes32(a)) ==> b < a
  {
    if LexLess(BeBytes32(a), BeBytes32(b)) {
      BeBytes32Forward(a, b);
    }
    if LexLess(BeBytes32(b), BeBytes32(a)) {
      BeBytes32Forward(b, a);
    }
  }

  lemma BeBytes64Forward(a: bv64, b: bv64)
    requires LexLess(BeBytes64(a), BeBytes64(b))
    ensures a < b
  {
    var ha, la, hb, lb := (a >> 32) as bv32, (a & 0xFFFF_FFFF) as bv32, (b >> 32) as bv32, (b & 0xFFFF_FFFF) as bv32;
    Be64Split(a);
    Be64Split(b);
    LexLessConcat(BeBytes32(ha), BeBytes32(la), BeBytes32(hb), BeBytes32(lb));
    if LexLess(BeBytes32(ha), BeBytes32(hb)) {
      HighBytesDecide64(a, b);
    } else {
      LowBytesDecide64(a, b);
    }
  }

  lemma HighBytesDecide64(a: bv64, b: bv64)
    requires LexLess(BeBytes32((a >> 32) as bv32), BeBytes32((b >> 32) as bv32))
    ensures a < b
  {
    HighWordsOrdered64(a, b);
    HighHalfDecides64(a, b);
  }

  lemma HighWordsOrdered64(a: bv64, b: bv64)
    requires LexLess(BeBytes32((a >> 32) as bv32), BeBytes32((b >> 32) as bv32))
    ensures (a >> 32) as bv32 < (b >> 32) as bv32
  {
    BeBytes32Order((a >> 32) as bv32, (b >> 32) as bv32);
  }

  lemma LowBytesDecide64(a: bv64, b: bv64)
    requires BeBytes32((a >> 32) as bv32) == BeBytes32((b >> 32) as bv32)
    requires LexLess(BeBytes32((a & 0xFFFF_FFFF) as bv32), BeBytes32((b & 0xFFFF_FFFF) as bv32))
    ensures a < b
  {
    Be32RoundTrip((a >> 32) as bv32, []);
    Be32RoundTrip((b >> 32) as bv32, []);
    BeBytes32Order((a & 0xFFFF_FFFF) as bv32, (b & 0xFFFF_FFFF) as bv32);
    LowHalfDecides64(a, b);
  }

  lemma Be64Injective(a: bv64, b: bv64)
    requires BeBytes64(a) == BeBytes64(b)
    ensures a == b
  {
    Be64RoundTrip(a, []);
    Be64RoundTrip(b, []);
  }

  lemma BeBytes64Order(a: bv64, b: bv64)
    ensures LexLess(BeBytes64(a), BeBytes64(b)) <==> a < b
  {
    var ea, eb := BeBytes64(a), BeBytes64(b);
    BeBytes64ForwardBoth(a, b);
    if ea == eb {
      Be64Injective(a, b);
    }
    LexLessFromForward(ea, eb, a < b, b < a, a == b);
  }

  lemma BeBytes64ForwardBoth(a: bv64, b: bv64)
    ensures LexLess(BeBytes64(a), BeBytes64(b)) ==> a < b
    ensures LexLess(BeBytes64(b), BeBytes64(a)) ==> b < a
  {
    if LexLess(BeBytes64(a), BeBytes64(b)) {
      BeBytes64Forward(a, b);
    }
    if LexLess(BeBytes64(b), BeBytes64(a)) {
      BeBytes64Forward(b, a);
    }
  }

  /** The bytes `encode_u64` writes sort as the unsigned numbers. */
  lemma EncodeU64Sorted(a: bv64, b: bv64)
    ensures LexLess(EncodeU64([], a), EncodeU64([], b)) <==> a < b
  {
    assert EncodeU64([], a) == BeBytes64(a);
    assert EncodeU64([], b) == BeBytes64(b);
    BeBytes64Order(a, b);
  }

  // ---------------------------------------------------------------------------
  // i64: flipping the sign bit turns signed order into unsigned order

  const I64_MIN: bv64 := 0x8000_0000_0000_0000
  const I64_MAX: bv64 := 0x7FFF_FFFF_FFFF_FFFF
  const U64_MAX: bv64 := 0xFFFF_FFFF_FFFF_FFFF

  /** A two's-complement pattern is negative when its top bit is set. */
  predicate IsNegative64(v: bv64) {
    v & SIGN_MARK != 0
  }

  /** Rust's `<` on `i64`, read off the two's-complement patterns. */
  predicate I64Less(a: bv64, b: bv64) {
    if IsNegative64(a) != IsNegative64(b) then IsNegative64(a) else a < b
  }

  lemma OrderI64Monotone(a: bv64, b: bv64)
    ensures I64Less(a, b) <==> OrderEncodeI64(a) < OrderEncodeI64(b)
  {
    if IsNegative64(a) == IsNegative64(b) {
      if a < b {
        FlipKeepsOrder(a, b);
      }
      if OrderEncodeI64(a) < OrderEncodeI64(b) {
        FlipReflectsOrder(a, b);
      }
    } else if IsNegative64(a) {
      FlipSeparates(a, b);
    } else {
      FlipSeparates(b, a);
    }
  }

  lemma FlipKeepsOrder(a: bv64, b: bv64)
    requires IsNegative64(a) == IsNegative64(b) && a < b
    ensures OrderEncodeI64(a) < OrderEncodeI64(b)
  {
  }

  lemma FlipReflectsOrder(a: bv64, b: bv64)
    requires IsNegative64(a) == IsNegative64(b) && OrderEncodeI64(a) < OrderEncodeI64(b)
    ensures a < b
  {
  }

  /** Flipping the sign bit puts every negative pattern below every non-negative one. */
  lemma FlipSeparates(neg: bv64, nonneg: bv64)
    requires IsNegative64(neg) && !IsNegative64(nonneg)
    ensures OrderEncodeI64(neg) < OrderEncodeI64(nonneg) && !(OrderEncodeI64(nonneg) < OrderEncodeI64(neg))
  {
  }

  /** `i64::MIN` goes to 0 and `i64::MAX` to `u64::MAX`. */
  lemma OrderI64Extremes()
    ensures OrderEncodeI64(I64_MIN) == 0 && OrderEncodeI64(I64_MAX) == U64_MAX
    ensures forall v: bv64 :: !I64Less(v, I64_MIN) && !I64Less(I64_MAX, v)
  {
    forall v: bv64
      ensures !I64Less(v, I64_MIN) && !I64Less(I64_MAX, v)
    {
      OrderI64Monotone(v, I64_MIN);
      OrderI64Monotone(I64_MAX, v);
    }
  }

  /** The bytes `encode_i64` writes sort in signed order. */
  lemma EncodeI64Sorted(a: bv64, b: bv64)
    ensures LexLess(EncodeI64([], a), EncodeI64([], b)) <==> I64Less(a, b)
  {
    EncodeU64Sorted(OrderEncodeI64(a), OrderEncodeI64(b));
    OrderI64Monotone(a, b);
  }

  // ---------------------------------------------------------------------------
  // f64: the transform sorts bit patterns by sign and magnitude

  /**
   * The order IEEE-754's totalOrder puts on bit patterns: every pattern with
   * the sign bit set comes before every one without it; among non-negative
   * patterns a larger magnitude is larger, among negative ones it is smaller.
   * On patterns that are not NaN this agrees with numeric `<` except that it
   * places -0.0 just below +0.0.
   */
  predicate F64TotalLess(a: bv64, b: bv64) {
    if IsSignPositive(a) != IsSignPositive(b) then !IsSignPositive(a)
    else if IsSignPositive(a) then a < b
    else b < a
  }

  lemma OrderF64Monotone(a: bv64, b: bv64)
    ensures F64TotalLess(a, b) <==> OrderEncodeF64(a) < OrderEncodeF64(b)
  {
    if IsSignPositive(a) && IsSignPositive(b) {
      if a < b {
        SetTopBitKeepsOrder(a, b);
      }
      if OrderEncodeF64(a) < OrderEncodeF64(b) {
        SetTopBitReflectsOrder(a, b);
      }
    } else if !IsSignPositive(a) && !IsSignPositive(b) {
      if b < a {
        ComplementReversesOrder(a, b);
      }
      if OrderEncodeF64(a) < OrderEncodeF64(b) {
        ComplementReflectsOrder(a, b);
      }
    } else if IsSignPositive(a) {
      TransformSeparates(b, a);
    } else {
      TransformSeparates(a, b);
    }
  }

  lemma SetTopBitKeepsOrder(a: bv64, b: bv64)
    requires IsSignPositive(a) && IsSignPositive(b) && a < b
    ensures OrderEncodeF64(a) < OrderEncodeF64(b)
  {
  }

  lemma SetTopBitReflectsOrder(a: bv64, b: bv64)
    requires IsSignPositive(a) && IsSignPositive(b) && OrderEncodeF64(a) < OrderEncodeF64(b)
    ensures a < b
  {
  }

  lemma ComplementReversesOrder(a: bv64, b: bv64)
    requires !IsSignPositive(a) && !IsSignPositive(b) && b < a
    ensures OrderEncodeF64(a) < OrderEncodeF64(b)
  {
  }

  lemma ComplementReflectsOrder(a: bv64, b: bv64)
    requires !IsSignPositive(a) && !IsSignPositive(b) && OrderEncodeF64(a) < OrderEncodeF64(b)
    ensures b < a
  {
  }

  /** The transform puts every negative pattern below every non-negative one. */
  lemma TransformSeparates(neg: bv64, nonneg: bv64)
    requires !IsSignPositive(neg) && IsSignPositive(nonneg)
    ensures OrderEncodeF64(neg) < OrderEncodeF64(nonneg) && !(OrderEncodeF64(nonneg) < OrderEncodeF64(neg))
  {
  }

  /** The bytes `encode_f64` writes sort in that order. */
  lemma EncodeF64Sorted(a: bv64, b: bv64)
    ensures LexLess(EncodeF64([], a), EncodeF64([], b)) <==> F64TotalLess(a, b)
  {
    EncodeU64Sorted(OrderEncodeF64(a), OrderEncodeF64(b));
    OrderF64Monotone(a, b);
  }

  // ---------------------------------------------------------------------------
  // The little-endian encodings

  /** `i16`/`i32`/`f32` write the same bytes as the big-endian path, reversed. */
  lemma LittleEndianIsReversed(v16: bv16, v32: bv32)
    ensures LeBytes16(v16) == Reverse(BeBytes16(v16))
    ensures LeBytes32(v32) == Reverse(BeBytes32(v32))
  {
  }

  /**
   * The `i32` encoding does not preserve order: 1 < 256, but the bytes of
   * 256 sort before the bytes of 1.
   */
  lemma EncodeI32Unordered()
    ensures (1 as bv32) < (256 as bv32)
    ensures EncodeI32([], 1) == [1, 0, 0, 0] && EncodeI32([], 256) == [0, 1, 0, 0]
    ensures LexLess(EncodeI32([], 256), EncodeI32([], 1))
  {
    assert EncodeI32([], 1) == [1, 0, 0, 0];
    assert EncodeI32([], 256) == [0, 1, 0, 0];
    assert [0, 1, 0, 0][1..] == [1, 0, 0] && [1, 0, 0, 0][1..] == [0, 0, 0];
  }
}
