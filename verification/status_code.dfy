/**
 * `StatusCode`, the 64-bit flag word stored in a raw value's trailer. The
 * top eight bits are the system segment, reserved for the engine; the low
 * 56 bits are the user segment. The only named flag is `IS_TOMBSTONE`, the
 * top bit. The bit operations of the `bitflags` crate that the code uses
 * (`&`, `insert`, `contains`, `is_empty`) are written out here on `bv64`.
 */
module StatusCodes {

  datatype StatusCode = StatusCode(bits: bv64)

  const SYSTEM_STATUS_MASK := StatusCode(0xff00_0000_0000_0000)
  const USER_STATUS_MASK := StatusCode(0x00ff_ffff_ffff_ffff)
  const IS_TOMBSTONE := StatusCode(0x8000_0000_0000_0000)
  const GOOD := StatusCode(0)

  /** The largest user status, `2^56 - 1`. */
  const MAX_USER_STATUS: bv64 := 0x00ff_ffff_ffff_ffff

  // ---------------------------------------------------------------------------
  // The `bitflags` operations

  /** `a & b`. */
  function Intersect(a: StatusCode, b: StatusCode): StatusCode {
    StatusCode(a.bits & b.bits)
  }

  /** `s.contains(other)`: every bit of `other` is set in `s`. */
  predicate Contains(s: StatusCode, other: StatusCode) {
    s.bits & other.bits == other.bits
  }

  predicate IsEmpty(s: StatusCode) {
    s.bits == 0
  }

  /** `s.insert(other)`: set the bits of `other`, leave every other bit alone. */
  function Insert(s: StatusCode, other: StatusCode): (r: StatusCode)
    ensures Contains(r, other)
    ensures r.bits & !other.bits == s.bits & !other.bits
  {
    StatusCode(s.bits | other.bits)
  }

  // ---------------------------------------------------------------------------
  // Projections, predicates and conversions

  /** Keep the user segment of `s` and clear the system segment. */
  function UserStatus(s: StatusCode): (r: StatusCode)
    ensures r.bits & SYSTEM_STATUS_MASK.bits == 0
    ensures (r.bits ^ s.bits) & USER_STATUS_MASK.bits == 0
  {
    Intersect(s, USER_STATUS_MASK)
  }

  /** Keep the system segment of `s` and clear the user segment. */
  function SystemStatus(s: StatusCode): (r: StatusCode)
    ensures r.bits & USER_STATUS_MASK.bits == 0
    ensures (r.bits ^ s.bits) & SYSTEM_STATUS_MASK.bits == 0
  {
    Intersect(s, SYSTEM_STATUS_MASK)
  }

  /** Whether `s` marks a logically deleted value: its top bit is set. */
  function IsTombstone(s: StatusCode): (r: bool)
    ensures r <==> s.bits >> 63 == 1
  {
    Contains(s, IS_TOMBSTONE)
  }

  /** Build a status from a user value, dropping anything in the system segment. */
  function FromUserStatus(value: bv64): (r: StatusCode)
    ensures SystemStatus(r) == GOOD
    ensures (r.bits ^ value) & USER_STATUS_MASK.bits == 0
  {
    Intersect(StatusCode(value), USER_STATUS_MASK)
  }

  /** `Default::default()`. */
  function Default(): (r: StatusCode)
    ensures IsEmpty(r) && r.bits == 0
  {
    GOOD
  }

  /** `From<u64>`: every 64-bit pattern is a status, all bits kept. */
  function FromU64(value: bv64): (r: StatusCode)
    ensures r.bits == value
  {
    StatusCode(value)
  }

  /** `From<StatusCode> for u64`: only the user segment is exposed. */
  function ToU64(s: StatusCode): (r: bv64)
    ensures r & SYSTEM_STATUS_MASK.bits == 0
    ensures (r ^ s.bits) & USER_STATUS_MASK.bits == 0
  {
    UserStatus(s).bits
  }

  // ---------------------------------------------------------------------------
  // Laws

  /** The two masks are disjoint and together cover all 64 bits. */
  lemma MasksPartition()
    ensures SYSTEM_STATUS_MASK.bits & USER_STATUS_MASK.bits == 0
    ensures SYSTEM_STATUS_MASK.bits | USER_STATUS_MASK.bits == 0xFFFF_FFFF_FFFF_FFFF
    ensures Contains(SYSTEM_STATUS_MASK, IS_TOMBSTONE)
  {
  }

  /** Every status is the disjoint union of its two segments. */
  lemma SegmentsPartition(s: StatusCode)
    ensures UserStatus(s).bits | SystemStatus(s).bits == s.bits
    ensures UserStatus(s).bits & SystemStatus(s).bits == 0
  {
  }

  /** Both projections are idempotent. */
  lemma ProjectionsIdempotent(s: StatusCode)
    ensures UserStatus(UserStatus(s)) == UserStatus(s)
    ensures SystemStatus(SystemStatus(s)) == SystemStatus(s)
  {
  }

  /** Each projection clears the other's segment. */
  lemma ProjectionsOrthogonal(s: StatusCode)
    ensures SystemStatus(UserStatus(s)) == GOOD
    ensures UserStatus(SystemStatus(s)) == GOOD
  {
  }

  /** The tombstone bit lives in the system segment, so no user status is a tombstone. */
  lemma UserStatusNeverTombstone(s: StatusCode)
    ensures !IsTombstone(UserStatus(s))
    ensures IsTombstone(s) <==> IsTombstone(SystemStatus(s))
  {
  }

  /** `from_user_status` is `From<u64>` followed by the user projection. */
  lemma FromUserStatusIsUserProjection(value: bv64)
    ensures FromUserStatus(value) == UserStatus(FromU64(value))
    ensures ToU64(FromUserStatus(value)) == ToU64(FromU64(value))
  {
  }

  /** Converting to a status and back to `u64` is the identity exactly on the user range. */
  lemma U64RoundTripIff(value: bv64)
    ensures ToU64(FromU64(value)) == value <==> value & SYSTEM_STATUS_MASK.bits == 0
    ensures ToU64(FromU64(value)) == value <==> value <= MAX_USER_STATUS
  {
    UserRangeIsBound(value);
  }

  /** A value has no system bits exactly when it is at most `2^56 - 1`. */
  lemma UserRangeIsBound(value: bv64)
    ensures value & SYSTEM_STATUS_MASK.bits == 0 <==> value <= MAX_USER_STATUS
  {
    if value & SYSTEM_STATUS_MASK.bits == 0 {
      NoSystemBitsBounded(value);
    }
    if value <= MAX_USER_STATUS {
      BoundedHasNoSystemBits(value);
    }
  }

  lemma NoSystemBitsBounded(value: bv64)
    requires value & SYSTEM_STATUS_MASK.bits == 0
    ensures value <= MAX_USER_STATUS
  {
  }

  lemma BoundedHasNoSystemBits(value: bv64)
    requires value <= MAX_USER_STATUS
    ensures value & SYSTEM_STATUS_MASK.bits == 0
  {
  }

  /** Inserting a flag that is already present changes nothing. */
  lemma InsertPresent(s: StatusCode, flag: StatusCode)
    requires Contains(s, flag)
    ensures Insert(s, flag) == s
  {
  }

  /** Inserting the tombstone flag makes a tombstone and leaves the user segment alone. */
  lemma InsertTombstone(s: StatusCode)
    ensures IsTombstone(Insert(s, IS_TOMBSTONE))
    ensures UserStatus(Insert(s, IS_TOMBSTONE)) == UserStatus(s)
  {
  }

  /** `Default` is `GOOD`, which is empty; `IS_TOMBSTONE` is a tombstone. */
  lemma DefaultIsGood()
    ensures Default() == GOOD && IsEmpty(Default())
    ensures IsTombstone(IS_TOMBSTONE) && !IsTombstone(GOOD)
  {
  }

  /** `StatusCode::from(64)` converts back to 64 and has no system status. */
  lemma StatusTransformExample()
    ensures ToU64(FromU64(64)) == 64
    ensures SystemStatus(FromU64(64)) == GOOD
  {
  }
}
