/**
 * The fixed-width number codec of `cells_utils::codec::number`.
 *
 * Every Rust number is modelled by its bit pattern: `u16`/`u32`/`u64` by
 * `bv16`/`bv32`/`bv64`, the signed types `i16`/`i32`/`i64` by their
 * two's-complement pattern of the same width, and `f32`/`f64` by their raw
 * IEEE-754 pattern (`to_bits`). Encoders append to a byte buffer and cannot
 * fail; decoders read from a cursor and return the value together with the
 * cursor they leave behind.
 */
module Number {
  import opened Bytes
  import opened Wrappers

  const SIGN_MARK: bv64 := 0x8000_0000_0000_0000
  const U64_SIZE: nat := 8
  const I64_SIZE: nat := 8
  const F64_SIZE: nat := 8
  const U32_SIZE: nat := 4
  const I32_SIZE: nat := 4
  const F32_SIZE: nat := 4
  const U16_SIZE: nat := 2
  const I16_SIZE: nat := 2

  datatype Error = EncoderUnexpectedEof

  /** What a decoder returns: its result, and the cursor `*data` it leaves. */
  datatype Read<T> = Read(result: Result<T, Error>, cursor: seq<Byte>)

  // ---------------------------------------------------------------------------
  // Order-preserving transforms

  /** `v as u64 ^ SIGN_MARK`: flip the sign bit of the two's-complement pattern. */
  function OrderEncodeI64(v: bv64): (u: bv64)
    ensures u & SIGN_MARK != v & SIGN_MARK
    ensures u & !SIGN_MARK == v & !SIGN_MARK
  {
    v ^ SIGN_MARK
  }

  /** `(u ^ SIGN_MARK) as i64`: the pattern whose encoding is `u`. */
  function OrderDecodeI64(u: bv64): (v: bv64)
    ensures OrderEncodeI64(v) == u
  {
    u ^ SIGN_MARK
  }

  /** `f64::is_sign_positive`: the sign bit of the pattern is clear. */
  predicate IsSignPositive(bits: bv64) {
    bits & SIGN_MARK == 0
  }

  /**
   * Set the top bit of a non-negative pattern, complement a negative one:
   * non-negative patterns land in the upper half with their magnitude kept,
   * negative ones in the lower half with their magnitude complemented.
   */
  function OrderEncodeF64(bits: bv64): (u: bv64)
    ensures u & SIGN_MARK != 0 <==> IsSignPositive(bits)
    ensures IsSignPositive(bits) ==> u & !SIGN_MARK == bits & !SIGN_MARK
    ensures !IsSignPositive(bits) ==> u & !SIGN_MARK == !bits & !SIGN_MARK
  {
    if IsSignPositive(bits) then bits | SIGN_MARK else !bits
  }

  /** Undo `OrderEncodeF64`, branching on the encoded top bit: the pattern whose encoding is `u`. */
  function OrderDecodeF64(u: bv64): (bits: bv64)
    ensures OrderEncodeF64(bits) == u
  {
    if u & SIGN_MARK > 0 then (ClearTopBitThenSet(u); u & !SIGN_MARK) else (ComplementTwice(u); !u)
  }

  // ---------------------------------------------------------------------------
  // Byte packing (what `byteorder` writes and reads)

  function BeBytes16(v: bv16): seq<Byte> {
    [(v >> 8) as Byte, (v & 0xFF) as Byte]
  }

  function LeBytes16(v: bv16): seq<Byte> {
    [(v & 0xFF) as Byte, (v >> 8) as Byte]
  }

  function BeBytes32(v: bv32): seq<Byte> {
    [(v >> 24) as Byte, ((v >> 16) & 0xFF) as Byte, ((v >> 8) & 0xFF) as Byte, (v & 0xFF) as Byte]
  }

  function LeBytes32(v: bv32): seq<Byte> {
    [(v & 0xFF) as Byte, ((v >> 8) & 0xFF) as Byte, ((v >> 16) & 0xFF) as Byte, (v >> 24) as Byte]
  }

  function BeBytes64(v: bv64): seq<Byte> {
    [ (v >> 56) as Byte, ((v >> 48) & 0xFF) as Byte, ((v >> 40) & 0xFF) as Byte, ((v >> 32) & 0xFF) as Byte,
      ((v >> 24) & 0xFF) as Byte, ((v >> 16) & 0xFF) as Byte, ((v >> 8) & 0xFF) as Byte, (v & 0xFF) as Byte ]
  }

  /** `BigEndian::read_u16`, which panics on fewer than two bytes. */
  function FromBeBytes16(b: seq<Byte>): bv16
    requires |b| >= 2
  {
    (b[0] as bv16 << 8) | b[1] as bv16
  }

  function FromLeBytes16(b: seq<Byte>): bv16
    requires |b| >= 2
  {
    (b[1] as bv16 << 8) | b[0] as bv16
  }

  function FromBeBytes32(b: seq<Byte>): bv32
    requires |b| >= 4
  {
    (b[0] as bv32 << 24) | (b[1] as bv32 << 16) | (b[2] as bv32 << 8) | b[3] as bv32
  }

  function FromLeBytes32(b: seq<Byte>): bv32
    requires |b| >= 4
  {
    (b[3] as bv32 << 24) | (b[2] as bv32 << 16) | (b[1] as bv32 << 8) | b[0] as bv32
  }

  function FromBeBytes64(b: seq<Byte>): bv64
    requires |b| >= 8
  {
    (b[0] as bv64 << 56) | (b[1] as bv64 << 48) | (b[2] as bv64 << 40) | (b[3] as bv64 << 32) |
    (b[4] as bv64 << 24) | (b[5] as bv64 << 16) | (b[6] as bv64 << 8) | b[7] as bv64
  }

  // ---------------------------------------------------------------------------
  // Round trips of the transforms and of the packing

  /** Flipping the sign bit twice is the identity, in both directions. */
  lemma OrderI64RoundTrip(v: bv64)
    ensures OrderDecodeI64(OrderEncodeI64(v)) == v
    ensures OrderEncodeI64(OrderDecodeI64(v)) == v
  {
  }

  /** `order_decode_f64` undoes `order_encode_f64` on every bit pattern. */
  lemma OrderF64RoundTrip(bits: bv64)
    ensures OrderDecodeF64(OrderEncodeF64(bits)) == bits
  {
    if IsSignPositive(bits) {
      SetTopBitThenClear(bits);
    } else {
      ComplementNegative(bits);
    }
  }

  lemma SetTopBitThenClear(bits: bv64)
    requires IsSignPositive(bits)
    ensures (bits | SIGN_MARK) & SIGN_MARK > 0 && (bits | SIGN_MARK) & !SIGN_MARK == bits
  {
  }

  lemma ComplementNegative(bits: bv64)
    requires !IsSignPositive(bits)
    ensures !(!bits & SIGN_MARK > 0) && !!bits == bits
  {
  }

  /** ... and `order_encode_f64` undoes `order_decode_f64`: the transform is a bijection. */
  lemma OrderF64Surjective(u: bv64)
    ensures OrderEncodeF64(OrderDecodeF64(u)) == u
  {
    if u & SIGN_MARK > 0 {
      ClearTopBitThenSet(u);
    } else {
      ComplementTwice(u);
    }
  }

  lemma ClearTopBitThenSet(u: bv64)
    requires u & SIGN_MARK > 0
    ensures IsSignPositive(u & !SIGN_MARK) && (u & !SIGN_MARK) | SIGN_MARK == u
  {
  }

  lemma ComplementTwice(u: bv64)
    requires u & SIGN_MARK == 0
    ensures !IsSignPositive(!u) && !!u == u
  {
  }

  /** The encoded top bit is set exactly when the input sign bit is clear. */
  lemma OrderF64TopBit(bits: bv64)
    ensures OrderEncodeF64(bits) & SIGN_MARK != 0 <==> IsSignPositive(bits)
  {
  }

  lemma Be16RoundTrip(v: bv16, b: seq<Byte>)
    ensures FromBeBytes16(BeBytes16(v)) == v
    ensures |b| >= 2 ==> BeBytes16(FromBeBytes16(b)) == b[..2]
  {
    if |b| >= 2 {
      Be16Reads(b);
    }
  }

  lemma Be16Reads(b: seq<Byte>)
    requires |b| >= 2
    ensures BeBytes16(FromBeBytes16(b)) == b[..2]
  {
    var r := BeBytes16(FromBeBytes16(b));
    assert r[0] == b[0] && r[1] == b[1];
  }

  lemma Le16RoundTrip(v: bv16, b: seq<Byte>)
    ensures FromLeBytes16(LeBytes16(v)) == v
    ensures |b| >= 2 ==> LeBytes16(FromLeBytes16(b)) == b[..2]
  {
    if |b| >= 2 {
      Le16Reads(b);
    }
  }

  lemma Le16Reads(b: seq<Byte>)
    requires |b| >= 2
    ensures LeBytes16(FromLeBytes16(b)) == b[..2]
  {
    var r := LeBytes16(FromLeBytes16(b));
    assert r[0] == b[0] && r[1] == b[1];
  }

  lemma Be32RoundTrip(v: bv32, b: seq<Byte>)
    ensures FromBeBytes32(BeBytes32(v)) == v
    ensures |b| >= 4 ==> BeBytes32(FromBeBytes32(b)) == b[..4]
  {
    if |b| >= 4 {
      Be32Reads(b);
    }
  }

  lemma Be32Reads(b: seq<Byte>)
    requires |b| >= 4
    ensures BeBytes32(FromBeBytes32(b)) == b[..4]
  {
    var r := BeBytes32(FromBeBytes32(b));
    assert r[0] == b[0] && r[1] == b[1] && r[2] == b[2] && r[3] == b[3];
  }

  lemma Le32RoundTrip(v: bv32, b: seq<Byte>)
    ensures FromLeBytes32(LeBytes32(v)) == v
    ensures |b| >= 4 ==> LeBytes32(FromLeBytes32(b)) == b[..4]
  {
    if |b| >= 4 {
      Le32Reads(b);
    }
  }

  lemma Le32Reads(b: seq<Byte>)
    requires |b| >= 4
    ensures LeBytes32(FromLeBytes32(b)) == b[..4]
  {
    var r := LeBytes32(FromLeBytes32(b));
    assert r[0] == b[0] && r[1] == b[1] && r[2] == b[2] && r[3] == b[3];
  }

  lemma Be64RoundTrip(v: bv64, b: seq<Byte>)
    ensures FromBeBytes64(BeBytes64(v)) == v
    ensures |b| >= 8 ==> BeBytes64(FromBeBytes64(b)) == b[..8]
  {
    if |b| >= 8 {
      Be64Reads(b);
    }
  }

  lemma Be64Reads(b: seq<Byte>)
    requires |b| >= 8
    ensures BeBytes64(FromBeBytes64(b)) == b[..8]
  {
    Be64ReadsHigh(b);
    Be64ReadsLow(b);
    var r := BeBytes64(FromBeBytes64(b));
    assert forall i | 0 <= i < 8 :: r[i] == b[i];
  }

  lemma Be64ReadsHigh(b: seq<Byte>)
    requires |b| >= 8
    ensures var r := BeBytes64(FromBeBytes64(b)); r[0] == b[0] && r[1] == b[1] && r[2] == b[2] && r[3] == b[3]
  {
  }

  lemma Be64ReadsLow(b: seq<Byte>)
    requires |b| >= 8
    ensures var r := BeBytes64(FromBeBytes64(b)); r[4] == b[4] && r[5] == b[5] && r[6] == b[6] && r[7] == b[7]
  {
  }

  // ---------------------------------------------------------------------------
  // `NumberEncoder`: each encoder appends the type's width to the buffer

  function EncodeU64(buf: seq<Byte>, v: bv64): (r: seq<Byte>)
    ensures |r| == |buf| + U64_SIZE && r[..|buf|] == buf
    ensures FromBeBytes64(r[|buf|..]) == v
  {
    Be64RoundTrip(v, []);
    buf + BeBytes64(v)
  }

  function EncodeI64(buf: seq<Byte>, v: bv64): (r: seq<Byte>)
    ensures |r| == |buf| + I64_SIZE && r[..|buf|] == buf
    ensures OrderDecodeI64(FromBeBytes64(r[|buf|..])) == v
  {
    OrderI64RoundTrip(v);
    EncodeU64(buf, OrderEncodeI64(v))
  }

  function EncodeF64(buf: seq<Byte>, bits: bv64): (r: seq<Byte>)
    ensures |r| == |buf| + F64_SIZE && r[..|buf|] == buf
    ensures OrderDecodeF64(FromBeBytes64(r[|buf|..])) == bits
  {
    OrderF64RoundTrip(bits);
    EncodeU64(buf, OrderEncodeF64(bits))
  }

  function EncodeU32(buf: seq<Byte>, v: bv32): (r: seq<Byte>)
    ensures |r| == |buf| + U32_SIZE && r[..|buf|] == buf
    ensures FromBeBytes32(r[|buf|..]) == v
  {
    Be32RoundTrip(v, []);
    buf + BeBytes32(v)
  }

  function EncodeI32(buf: seq<Byte>, v: bv32): (r: seq<Byte>)
    ensures |r| == |buf| + I32_SIZE && r[..|buf|] == buf
    ensures FromLeBytes32(r[|buf|..]) == v
  {
    Le32RoundTrip(v, []);
    buf + LeBytes32(v)
  }

  function EncodeF32(buf: seq<Byte>, bits: bv32): (r: seq<Byte>)
    ensures |r| == |buf| + F32_SIZE && r[..|buf|] == buf
    ensures FromLeBytes32(r[|buf|..]) == bits
  {
    Le32RoundTrip(bits, []);
    buf + LeBytes32(bits)
  }

  function EncodeU16(buf: seq<Byte>, v: bv16): (r: seq<Byte>)
    ensures |r| == |buf| + U16_SIZE && r[..|buf|] == buf
    ensures FromBeBytes16(r[|buf|..]) == v
  {
    Be16RoundTrip(v, []);
    buf + BeBytes16(v)
  }

  function EncodeI16(buf: seq<Byte>, v: bv16): (r: seq<Byte>)
    ensures |r| == |buf| + I16_SIZE && r[..|buf|] == buf
    ensures FromLeBytes16(r[|buf|..]) == v
  {
    Le16RoundTrip(v, []);
    buf + LeBytes16(v)
  }

  // ---------------------------------------------------------------------------
  // Decoders over a cursor

  /**
   * Take `size` bytes off the front of the cursor and read them with `f`; with
   * fewer than `size` bytes left, fail and leave the cursor where it was.
   */
  function ReadNumBytes<T>(size: nat, data: seq<Byte>, f: seq<Byte> --> T): (r: Read<T>)
    requires forall buf: seq<Byte> | |buf| == size :: f.requires(buf)
    ensures r.result.Ok? <==> |data| >= size
    ensures r.result.Ok? ==> |r.cursor| == |data| - size && data == data[..size] + r.cursor
                             && r.result.value == f(data[..size])
    ensures r.result.Err? ==> r.result.error == EncoderUnexpectedEof && r.cursor == data
  {
    if |data| >= size then
      var buf := data[..size];
      Read(Ok(f(buf)), data[size..])
    else
      Read(Err(EncoderUnexpectedEof), data)
  }

  function DecodeU64(data: seq<Byte>): (r: Read<bv64>)
    ensures |data| >= U64_SIZE ==> r.result.Ok? && data == EncodeU64([], r.result.value) + r.cursor
    ensures |data| < U64_SIZE ==> r == Read(Err(EncoderUnexpectedEof), data)
  {
    var r := ReadNumBytes(U64_SIZE, data, (b: seq<Byte>) requires |b| == U64_SIZE => FromBeBytes64(b));
    Be64RoundTrip(0, data);
    r
  }

  function DecodeI64(data: seq<Byte>): (r: Read<bv64>)
    ensures |data| >= I64_SIZE ==> r.result.Ok? && data == EncodeI64([], r.result.value) + r.cursor
    ensures |data| < I64_SIZE ==> r == Read(Err(EncoderUnexpectedEof), data)
  {
    var u := DecodeU64(data);
    OrderI64RoundTrip(u.result.UnwrapOr(0));
    Read(u.result.Map(OrderDecodeI64), u.cursor)
  }

  function DecodeF64(data: seq<Byte>): (r: Read<bv64>)
    ensures |data| >= F64_SIZE ==> r.result.Ok? && data == EncodeF64([], r.result.value) + r.cursor
    ensures |data| < F64_SIZE ==> r == Read(Err(EncoderUnexpectedEof), data)
  {
    var u := DecodeU64(data);
    OrderF64Surjective(u.result.UnwrapOr(0));
    Read(u.result.Map(OrderDecodeF64), u.cursor)
  }

  function DecodeU32(data: seq<Byte>): (r: Read<bv32>)
    ensures |data| >= U32_SIZE ==> r.result.Ok? && data == EncodeU32([], r.result.value) + r.cursor
    ensures |data| < U32_SIZE ==> r == Read(Err(EncoderUnexpectedEof), data)
  {
    var r := ReadNumBytes(U32_SIZE, data, (b: seq<Byte>) requires |b| == U32_SIZE => FromBeBytes32(b));
    Be32RoundTrip(0, data);
    r
  }

  function DecodeI32(data: seq<Byte>): (r: Read<bv32>)
    ensures |data| >= I32_SIZE ==> r.result.Ok? && data == EncodeI32([], r.result.value) + r.cursor
    ensures |data| < I32_SIZE ==> r == Read(Err(EncoderUnexpectedEof), data)
  {
    var r := ReadNumBytes(I32_SIZE, data, (b: seq<Byte>) requires |b| == I32_SIZE => FromLeBytes32(b));
    Le32RoundTrip(0, data);
    r
  }

  function DecodeF32(data: seq<Byte>): (r: Read<bv32>)
    ensures |data| >= F32_SIZE ==> r.result.Ok? && data == EncodeF32([], r.result.value) + r.cursor
    ensures |data| < F32_SIZE ==> r == Read(Err(EncoderUnexpectedEof), data)
  {
    var r := ReadNumBytes(F32_SIZE, data, (b: seq<Byte>) requires |b| == F32_SIZE => FromLeBytes32(b));
    Le32RoundTrip(0, data);
    r
  }

  function DecodeU16(data: seq<Byte>): (r: Read<bv16>)
    ensures |data| >= U16_SIZE ==> r.result.Ok? && data == EncodeU16([], r.result.value) + r.cursor
    ensures |data| < U16_SIZE ==> r == Read(Err(EncoderUnexpectedEof), data)
  {
    var r := ReadNumBytes(U16_SIZE, data, (b: seq<Byte>) requires |b| == U16_SIZE => FromBeBytes16(b));
    Be16RoundTrip(0, data);
    r
  }

  function DecodeI16(data: seq<Byte>): (r: Read<bv16>)
    ensures |data| >= I16_SIZE ==> r.result.Ok? && data == EncodeI16([], r.result.value) + r.cursor
    ensures |data| < I16_SIZE ==> r == Read(Err(EncoderUnexpectedEof), data)
  {
    var r := ReadNumBytes(I16_SIZE, data, (b: seq<Byte>) requires |b| == I16_SIZE => FromLeBytes16(b));
    Le16RoundTrip(0, data);
    r
  }

  // ---------------------------------------------------------------------------
  // Encoder and decoder agree: decoding `enc(v) ++ rest` yields `v` and leaves `rest`

  /** Encoding into a buffer appends exactly the standalone encoding. */
  lemma EncodeU64Appends(buf: seq<Byte>, v: bv64)
    ensures EncodeU64(buf, v) == buf + EncodeU64([], v)
  {
    assert [] + BeBytes64(v) == BeBytes64(v);
  }

  lemma U64RoundTrip(buf: seq<Byte>, v: bv64, rest: seq<Byte>)
    ensures DecodeU64(EncodeU64(buf, v)[|buf|..] + rest) == Read(Ok(v), rest)
  {
    var data := EncodeU64(buf, v)[|buf|..] + rest;
    var r := DecodeU64(data);
    assert EncodeU64([], r.result.value) + r.cursor == EncodeU64([], v) + rest;
  }

  lemma I64RoundTrip(buf: seq<Byte>, v: bv64, rest: seq<Byte>)
    ensures DecodeI64(EncodeI64(buf, v)[|buf|..] + rest) == Read(Ok(v), rest)
  {
    var data := EncodeI64(buf, v)[|buf|..] + rest;
    var r := DecodeI64(data);
    assert EncodeI64([], r.result.value) + r.cursor == EncodeI64([], v) + rest;
  }

  lemma F64RoundTrip(buf: seq<Byte>, bits: bv64, rest: seq<Byte>)
    ensures DecodeF64(EncodeF64(buf, bits)[|buf|..] + rest) == Read(Ok(bits), rest)
  {
    var data := EncodeF64(buf, bits)[|buf|..] + rest;
    var r := DecodeF64(data);
    assert EncodeF64([], r.result.value) + r.cursor == EncodeF64([], bits) + rest;
  }

  lemma U32RoundTrip(buf: seq<Byte>, v: bv32, rest: seq<Byte>)
    ensures DecodeU32(EncodeU32(buf, v)[|buf|..] + rest) == Read(Ok(v), rest)
  {
    var data := EncodeU32(buf, v)[|buf|..] + rest;
    var r := DecodeU32(data);
    assert EncodeU32([], r.result.value) + r.cursor == EncodeU32([], v) + rest;
  }

  lemma I32RoundTrip(buf: seq<Byte>, v: bv32, rest: seq<Byte>)
    ensures DecodeI32(EncodeI32(buf, v)[|buf|..] + rest) == Read(Ok(v), rest)
  {
    var data := EncodeI32(buf, v)[|buf|..] + rest;
    var r := DecodeI32(data);
    assert EncodeI32([], r.result.value) + r.cursor == EncodeI32([], v) + rest;
  }

  lemma F32RoundTrip(buf: seq<Byte>, bits: bv32, rest: seq<Byte>)
    ensures DecodeF32(EncodeF32(buf, bits)[|buf|..] + rest) == Read(Ok(bits), rest)
  {
    var data := EncodeF32(buf, bits)[|buf|..] + rest;
    var r := DecodeF32(data);
    assert EncodeF32([], r.result.value) + r.cursor == EncodeF32([], bits) + rest;
  }

  lemma U16RoundTrip(buf: seq<Byte>, v: bv16, rest: seq<Byte>)
    ensures DecodeU16(EncodeU16(buf, v)[|buf|..] + rest) == Read(Ok(v), rest)
  {
    var data := EncodeU16(buf, v)[|buf|..] + rest;
    var r := DecodeU16(data);
    assert EncodeU16([], r.result.value) + r.cursor == EncodeU16([], v) + rest;
  }

  lemma I16RoundTrip(buf: seq<Byte>, v: bv16, rest: seq<Byte>)
    ensures DecodeI16(EncodeI16(buf, v)[|buf|..] + rest) == Read(Ok(v), rest)
  {
    var data := EncodeI16(buf, v)[|buf|..] + rest;
    var r := DecodeI16(data);
    assert EncodeI16([], r.result.value) + r.cursor == EncodeI16([], v) + rest;
  }
}
