# Cells codec core in Dafny

This project models the byte-level core of the Cells key-value storage
layer. The core has four parts:

- **Number codec** (`Number`, `NumberOrder`). Fixed-width encoders append a
  number's bytes to a buffer. Decoders read them back from a cursor.
  - `u16`, `u32` and `u64` are big-endian.
  - `i64` and `f64` are big-endian after an order-preserving bit transform,
    so their byte strings sort like the numbers.
  - `i16`, `i32` and `f32` are plain little-endian.
- **StatusCode** (`StatusCodes`). A 64-bit flag word. The top 8 bits are
  the system segment and the low 56 bits are the user segment. The only
  named flag is the tombstone bit, bit 63.
- **ApiV1 raw value format** (`ApiVersion`). A stored value is the user
  bytes, then the timestamp as 8 big-endian bytes, then the status word as
  8 big-endian bytes. The tombstone flag is folded into the status word.
- **Key** (`Keys`). A wrapper around raw key bytes. Its equality and order
  are those of the bytes.

Shared modules:

- `Wrappers`: `Option` and `Result`.
- `Bytes`: `bv8` bytes and Rust's lexicographic slice order `Compare`,
  where a proper prefix sorts first. It also proves that order's laws.

Representation choices:

- Words are bitvectors: `bv16`, `bv32`, `bv64`.
- Signed integers are their two's-complement bit patterns. Signed order
  (`NumberOrder.I64Less`) is defined on those patterns: negatives, those
  with the sign bit set, sort first.
- `f32` and `f64` are raw IEEE bit patterns.
  - The order of `f64` patterns is `NumberOrder.F64TotalLess`. Patterns with
    the sign bit clear rank above those with it set. Among sign-clear
    patterns the larger pattern is greater; among sign-set patterns the
    larger pattern is smaller. This is IEEE totalOrder on the bit patterns.
- The cursor `&mut &[u8]` becomes `Number.Read(result, cursor)`. A decoder
  returns its result together with the cursor left after the read.
- Encoders are total functions that append to a `seq<bv8>`.

## Model

| member | source | states |
|---|---|---|
| Number.OrderEncodeI64 | common/cells_utils/src/codec/number.rs:11-13 | the encoding has the opposite sign bit and every other bit of the input |
| Number.OrderDecodeI64 | common/cells_utils/src/codec/number.rs:15-17 | the decoded pattern is the one whose encoding is the input |
| Number.OrderEncodeF64 | common/cells_utils/src/codec/number.rs:19-26 | the top bit is set exactly for sign-positive inputs. A sign-positive input keeps its other 63 bits, and a negative one has them complemented |
| Number.OrderDecodeF64 | common/cells_utils/src/codec/number.rs:28-35 | the decoded pattern is the one whose encoding is the input |
| Number.OrderI64RoundTrip | common/cells_utils/src/codec/number.rs:11-17 | XOR with the sign mark, then XOR back, is the identity both ways on every 64-bit pattern |
| Number.OrderF64RoundTrip | common/cells_utils/src/codec/number.rs:19-35 | the f64 decode transform undoes the encode transform on every bit pattern, both for sign-clear and sign-set inputs |
| Number.OrderF64Surjective | common/cells_utils/src/codec/number.rs:19-35 | every u64 is the encoding of its own decode, so the f64 transform is a bijection on 64-bit patterns |
| Number.OrderF64TopBit | common/cells_utils/src/codec/number.rs:19-26 | the encoded top bit is set exactly when the input's sign bit is clear |
| Number.Be16RoundTrip | common/cells_utils/src/codec/number.rs:79-82 | big-endian 16-bit packing and unpacking are inverse: a word survives, and any two bytes are rebuilt from the word read from them |
| Number.Le16RoundTrip | common/cells_utils/src/codec/number.rs:84-87 | the same inverse pair for little-endian 16-bit packing |
| Number.Be32RoundTrip | common/cells_utils/src/codec/number.rs:64-67 | the same inverse pair for big-endian 32-bit packing |
| Number.Le32RoundTrip | common/cells_utils/src/codec/number.rs:69-77 | the same inverse pair for little-endian 32-bit packing |
| Number.Be64RoundTrip | common/cells_utils/src/codec/number.rs:54-57 | the same inverse pair for big-endian 64-bit packing |
| Number.EncodeU64 | common/cells_utils/src/codec/number.rs:54-57 | appends exactly 8 bytes, leaves the buffer's prefix intact, and the appended bytes read big-endian give the value |
| Number.EncodeI64 | common/cells_utils/src/codec/number.rs:49-52 | appends exactly 8 bytes, leaves the prefix intact, and the appended bytes read big-endian and sign-flipped give the value |
| Number.EncodeF64 | common/cells_utils/src/codec/number.rs:59-62 | appends exactly 8 bytes, leaves the prefix intact, and the appended bytes read big-endian and passed through the f64 decode transform give the bit pattern |
| Number.EncodeU32 | common/cells_utils/src/codec/number.rs:64-67 | appends exactly 4 bytes, leaves the prefix intact, and the appended bytes read big-endian give the value |
| Number.EncodeI32 | common/cells_utils/src/codec/number.rs:69-72 | appends exactly 4 bytes, leaves the prefix intact, and the appended bytes read little-endian give the value |
| Number.EncodeF32 | common/cells_utils/src/codec/number.rs:74-77 | appends exactly 4 bytes, leaves the prefix intact, and the appended bytes read little-endian give the bit pattern |
| Number.EncodeU16 | common/cells_utils/src/codec/number.rs:79-82 | appends exactly 2 bytes, leaves the prefix intact, and the appended bytes read big-endian give the value |
| Number.EncodeI16 | common/cells_utils/src/codec/number.rs:84-87 | appends exactly 2 bytes, leaves the prefix intact, and the appended bytes read little-endian give the value |
| Number.EncodeU64Appends | common/cells_utils/src/codec/number.rs:54-57 | encoding into any buffer is that buffer followed by the standalone 8-byte encoding |
| Number.ReadNumBytes | common/cells_utils/src/codec/number.rs:92-103 | succeeds exactly when the cursor holds at least `size` bytes. On success the value is `f` of the first `size` bytes and the cursor is everything after them. Otherwise the error is `EncoderUnexpectedEof` and the cursor is unchanged |
| Number.DecodeU64 | common/cells_utils/src/codec/number.rs:110-113 | with 8 or more bytes the input is the encoding of the decoded value followed by the remaining cursor. With fewer it fails with `EncoderUnexpectedEof` and leaves the cursor alone |
| Number.DecodeI64 | common/cells_utils/src/codec/number.rs:105-108 | the same for `i64`: the input is the `encode_i64` bytes of the decoded value followed by the cursor, or a short input fails with the cursor unchanged |
| Number.DecodeF64 | common/cells_utils/src/codec/number.rs:115-118 | the same for `f64` bit patterns against `encode_f64` |
| Number.DecodeU32 | common/cells_utils/src/codec/number.rs:120-123 | the same for `u32` against `encode_u32` (big-endian) |
| Number.DecodeI32 | common/cells_utils/src/codec/number.rs:125-128 | the same for `i32` against `encode_i32` (little-endian) |
| Number.DecodeF32 | common/cells_utils/src/codec/number.rs:130-133 | the same for `f32` bit patterns against `encode_f32` (little-endian) |
| Number.DecodeU16 | common/cells_utils/src/codec/number.rs:135-138 | the same for `u16` against `encode_u16` (big-endian) |
| Number.DecodeI16 | common/cells_utils/src/codec/number.rs:140-143 | the same for `i16` against `encode_i16` (little-endian) |
| Number.U64RoundTrip | common/cells_utils/src/codec/number.rs:318-339 | decoding the bytes `encode_u64` appended, followed by any rest, gives the value back with exactly the rest left in the cursor |
| Number.I64RoundTrip | common/cells_utils/src/codec/number.rs:318-339 | the same round trip for `i64` |
| Number.F64RoundTrip | common/cells_utils/src/codec/number.rs:318-339 | the same round trip for `f64` bit patterns |
| Number.U32RoundTrip | common/cells_utils/src/codec/number.rs:318-339 | the same round trip for `u32` |
| Number.I32RoundTrip | common/cells_utils/src/codec/number.rs:318-339 | the same round trip for `i32` |
| Number.F32RoundTrip | common/cells_utils/src/codec/number.rs:318-339 | the same round trip for `f32` bit patterns |
| Number.U16RoundTrip | common/cells_utils/src/codec/number.rs:318-339 | the same round trip for `u16` |
| Number.I16RoundTrip | common/cells_utils/src/codec/number.rs:318-339 | the same round trip for `i16` |
| NumberOrder.BeBytes16Order | common/cells_utils/src/codec/number.rs:79-82 | the big-endian bytes of two 16-bit words compare lexicographically exactly as the words do |
| NumberOrder.BeBytes32Order | common/cells_utils/src/codec/number.rs:64-67 | the same for 32-bit words |
| NumberOrder.BeBytes64Order | common/cells_utils/src/codec/number.rs:54-57 | the same for 64-bit words |
| NumberOrder.EncodeU64Sorted | common/cells_utils/src/codec/number.rs:54-57 | `encode_u64` outputs sort lexicographically exactly as the unsigned values do |
| NumberOrder.OrderI64Monotone | common/cells_utils/src/codec/number.rs:11-13 | `a` is below `b` in signed order exactly when the sign-flipped `a` is below the sign-flipped `b` in unsigned order |
| NumberOrder.OrderI64Extremes | common/cells_utils/src/codec/number.rs:6-13 | `i64::MIN` maps to 0 and `i64::MAX` to `u64::MAX`, and no value is below the minimum or above the maximum |
| NumberOrder.EncodeI64Sorted | common/cells_utils/src/codec/number.rs:49-52 | `encode_i64` outputs sort lexicographically exactly in signed order |
| NumberOrder.OrderF64Monotone | common/cells_utils/src/codec/number.rs:19-26 | one pattern is below another in sign-magnitude total order exactly when its f64 encoding is the smaller unsigned word |
| NumberOrder.EncodeF64Sorted | common/cells_utils/src/codec/number.rs:59-62 | `encode_f64` outputs sort lexicographically exactly in the total order of the patterns |
| NumberOrder.LittleEndianIsReversed | common/cells_utils/src/codec/number.rs:69-87 | the little-endian bytes of a 16- or 32-bit word are its big-endian bytes reversed |
| NumberOrder.EncodeI32Unordered | common/cells_utils/src/codec/number.rs:69-72 | the little-endian `i32` codec does not preserve order: 1 < 256, yet the bytes of 256 sort before the bytes of 1 |
| Bytes.Compare | common/cells_types/src/key.rs:1-2 | only equal-length strings compare `Equal`, and a proper prefix sorts before every extension of it |
| Bytes.CompareEqualIff | common/cells_types/src/key.rs:1-2 | the derived byte-string order reports `Equal` exactly for equal strings |
| Bytes.CompareAntisymmetric | common/cells_types/src/key.rs:1-2 | `a` is below `b` exactly when `b` is above `a` |
| Bytes.LexLessTransitive | common/cells_types/src/key.rs:1-2 | the derived byte-string order is transitive |
| StatusCodes.Insert | common/api_version/src/lib.rs:89-92 | after inserting a flag its bits are all set, and every bit outside the flag is unchanged |
| StatusCodes.UserStatus | common/api_version/src/status_code.rs:19-21 | the result has no system bits and agrees with the input on every user bit |
| StatusCodes.SystemStatus | common/api_version/src/status_code.rs:24-26 | the result has no user bits and agrees with the input on every system bit |
| StatusCodes.IsTombstone | common/api_version/src/status_code.rs:29-31 | true exactly when bit 63 is set |
| StatusCodes.FromUserStatus | common/api_version/src/status_code.rs:33-36 | the result's system status is `GOOD`, and it agrees with the input on every user bit |
| StatusCodes.Default | common/api_version/src/status_code.rs:39-43 | the default status is empty, all bits zero |
| StatusCodes.FromU64 | common/api_version/src/status_code.rs:53-57 | every u64 converts, keeping all 64 bits |
| StatusCodes.ToU64 | common/api_version/src/status_code.rs:59-63 | the u64 has no system bits and agrees with the status on every user bit |
| StatusCodes.MasksPartition | common/api_version/src/status_code.rs:7-12 | the masks are disjoint and together cover all 64 bits, and the tombstone flag lies in the system mask |
| StatusCodes.SegmentsPartition | common/api_version/src/status_code.rs:19-26 | every status is the OR of its user and system parts, and the two parts share no bit |
| StatusCodes.ProjectionsIdempotent | common/api_version/src/status_code.rs:19-26 | projecting twice onto either segment is the same as projecting once |
| StatusCodes.ProjectionsOrthogonal | common/api_version/src/status_code.rs:19-26 | the system part of a user status, and the user part of a system status, are `GOOD` |
| StatusCodes.UserStatusNeverTombstone | common/api_version/src/status_code.rs:29-31 | a user status is never a tombstone, and a status is a tombstone exactly when its system part is |
| StatusCodes.FromUserStatusIsUserProjection | common/api_version/src/status_code.rs:33-36 | `from_user_status(v)` is `From<u64>` of `v` followed by the user projection |
| StatusCodes.UserRangeIsBound | common/api_version/src/status_code.rs:8-10 | a u64 has no system bits exactly when it is at most 2^56 - 1 |
| StatusCodes.U64RoundTripIff | common/api_version/src/status_code.rs:53-63 | converting to a status and back to u64 gives the same number exactly when it has no system bits, that is, exactly when it is at most 2^56 - 1 |
| StatusCodes.InsertPresent | common/api_version/src/lib.rs:89-92 | inserting a flag the status already contains changes nothing |
| StatusCodes.InsertTombstone | common/api_version/src/lib.rs:89-92 | inserting the tombstone flag makes the status a tombstone and leaves its user segment unchanged |
| StatusCodes.DefaultIsGood | common/api_version/src/status_code.rs:70-82 | the default is `GOOD` and empty; `IS_TOMBSTONE` is a tombstone and `GOOD` is not |
| StatusCodes.StatusTransformExample | common/api_version/src/status_code.rs:79-92 | status 64 converts back to 64 and has system status `GOOD` |
| Keys.FromRaw | common/cells_types/src/key.rs:14-16 | the key holds exactly the given bytes |
| Keys.AsRaw | common/cells_types/src/key.rs:19-21 | wrapping the returned bytes gives back the same key |
| Keys.IntoRaw | common/cells_types/src/key.rs:24-26 | returns the same bytes as `as_raw`, and wrapping them gives back the key |
| Keys.Cmp | common/cells_types/src/key.rs:1-2 | the derived key order says `Equal` exactly for equal keys, and `a` is below `b` exactly when the bytes of `b` compare above those of `a` |
| Keys.RawRoundTrip | common/cells_types/src/key.rs:14-26 | `from_raw` followed by `into_raw` or `as_raw` is the identity on every byte string, including the empty one |
| Keys.KeyEqualIff | common/cells_types/src/key.rs:1-2 | two keys are equal exactly when their bytes are, and the derived order says `Equal` exactly then |
| Keys.KeyOrderStrictTotal | common/cells_types/src/key.rs:1-2 | the derived key order is irreflexive, asymmetric, transitive and total |
| Keys.KeyWorksExample | common/cells_types/src/key.rs:35-38 | the empty key and `"a"` round-trip |
| ApiVersion.IsValid | common/api_version/src/lib.rs:33-38 | for a value whose tombstone field agrees with its status word, as every decoded value's does, the value is valid exactly when the status lacks the tombstone bit |
| ApiVersion.CheckedSub | common/api_version/src/lib.rs:56 | the subtraction succeeds exactly when it would not go below zero, and then the result plus the subtrahend is the minuend |
| ApiVersion.DecodeRawKey | common/api_version/src/lib.rs:45-47 | the stored key bytes encode back to the same key |
| ApiVersion.EncodeRawKey | common/api_version/src/lib.rs:49-51 | the key built from the bytes gives the same bytes back |
| ApiVersion.RawKeyRoundTrip | common/api_version/src/lib.rs:45-51 | keys pass through the format unchanged in both directions |
| ApiVersion.StoredStatus | common/api_version/src/lib.rs:89-92 | the written status is a tombstone exactly when the value is a tombstone or its status already was one. Every bit other than the tombstone bit is the value's status bit, so the user segment and the other system bits are unchanged |
| ApiVersion.DecodeRawValue | common/api_version/src/lib.rs:55-79 | returns `None` exactly when the input is shorter than 16 bytes. Otherwise the timestamp is present; the input is the user bytes, then the timestamp's 8-byte encoding, then the status's 8-byte encoding; and `tombstone` is the status's tombstone bit |
| ApiVersion.EncodeRawValue | common/api_version/src/lib.rs:81-97 | the output is 16 bytes longer than the user value and starts with it. The next 8 bytes read as the timestamp, or 0 when absent. The last 8 read as the stored status |
| ApiVersion.EncodeRawValueOwned | common/api_version/src/lib.rs:99-112 | the owned encoder produces exactly the bytes of the borrowed encoder |
| ApiVersion.EncodeLayout | common/api_version/src/lib.rs:81-97 | the encoding is the user bytes, then `encode_u64` of the timestamp or 0, then `encode_u64` of the stored status |
| ApiVersion.LayoutInjective | common/api_version/src/lib.rs:55-79 | a stored value determines its user bytes, timestamp word and status word |
| ApiVersion.DecodeAfterEncode | common/api_version/src/lib.rs:55-97 | decoding an encoding gives back the user bytes and `Some` of the timestamp (0 when absent). The status is the value's status with the tombstone flag inserted exactly when the value was a tombstone. The value is a tombstone when it was one or its status already carried the flag |
| ApiVersion.DecodeAfterEncodeObservations | common/api_version/src/lib.rs:124-145 | after a round trip the user status is unchanged. The value is a tombstone exactly when it was one or its status carried the flag, and valid exactly when neither held |
| ApiVersion.EncodeAfterDecode | common/api_version/src/lib.rs:55-97 | every byte string of 16 or more bytes is re-encoded from its decoding byte for byte |
| ApiVersion.NullValueExample | common/api_version/src/lib.rs:147-164 | an empty, untimed, `GOOD`, live value encodes to 16 zero bytes, which decode to empty bytes, timestamp `Some(0)`, status 0, valid |
| ApiVersion.ApiV1WorksExample | common/api_version/src/lib.rs:124-145 | the key `"123"` round-trips. The value `"123"` with its timestamp, user status 123 and the tombstone set decodes to the same bytes and timestamp, user status 123, a tombstone, not valid |

## Left out

- `EncoderNumberFail`: the `std::io::Write` failure path of the encoders is not modelled. Encoders append to a byte sequence and cannot fail, which is what the `.unwrap()` calls in the raw value encoders assume.
- Floating-point meaning: `f32` and `f64` are bit patterns only. NaN, numeric float comparison and `is_sign_positive` on NaN payloads are outside the model. The f64 order is stated on patterns as sign-magnitude total order, not on float values.
- Signed integers are modelled as two's-complement patterns, with signed order defined on the patterns. There is no view of them as mathematical integers.
- `byteorder` and `bitflags` internals: big/little-endian packing and the bit operations `&`, `insert` and `contains` are written out directly.
- `Display` for `StatusCode` (status_code.rs:45-51) is formatting only.
- Capacity reservation (lib.rs:82-83, 100-102), the `Send`/`Sync`/`'static` bounds of `KvFormat`, `Clone`/`Copy`/`Hash` derives and the test macro machinery have no observable effect on the bytes.
- Error and uncertain status flags, and a "clear user status" operation, do not exist in the code and are not modelled. `IS_TOMBSTONE` is the only named flag.
- `RawValue` is modelled with owned bytes only. The borrowed form `RawValue<&[u8]>` and the owned form `RawValue<Vec<u8>>` carry the same bytes.
- ApiVersion.IsValid: its contract speaks only of values whose tombstone field agrees with the status word. In general `is_valid` is `!tombstone` on the value's own field, as the code has it. It does not look at the status word. After decoding the two agree, since `tombstone` is derived from the status bit.
- The `i16`, `i32` and `f32` encoders are little-endian and not order-preserving, while the 64-bit and unsigned paths are. The model reproduces this as written, and `NumberOrder.EncodeI32Unordered` exhibits it.
