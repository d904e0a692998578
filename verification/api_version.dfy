/**
 * The ApiV1 storage format. A raw value is stored as the user's bytes
 * followed by a 16-byte trailer: the timestamp as a big-endian `u64`, then
 * the status word as a big-endian `u64`, with the tombstone flag folded into
 * the status's top bit. Raw keys are stored as their bytes, unchanged.
 */
module ApiVersion {
  import opened Wrappers
  import opened Bytes
  import opened Number
  import opened StatusCodes
  import opened Keys

  /** A decoded value: the user's bytes and the trailer's metadata. */
  datatype RawValue = RawValue(userValue: seq<Byte>, ts: Option<bv64>, status: StatusCode, tombstone: bool)

  /** The trailer after the user bytes: timestamp, then status. */
  const TRAILER_SIZE: nat := U64_SIZE + U64_SIZE

  /**
   * A value is valid unless it is a tombstone. For a value whose tombstone
   * field agrees with its status word, as every decoded value's does, that
   * is the absence of the tombstone bit.
   */
  function IsValid(v: RawValue): (r: bool)
    ensures v.tombstone == IsTombstone(v.status) ==> (r <==> !IsTombstone(v.status))
  {
    !v.tombstone
  }

  /** `usize::checked_sub`: `None` when the difference would be negative. */
  function CheckedSub(a: nat, b: nat): (r: Option<nat>)
    ensures r.Some? <==> b <= a
    ensures r.Some? ==> r.value + b == a
  {
    if b <= a then Some(a - b) else None
  }

  // ---------------------------------------------------------------------------
  // Keys

  /** `decode_raw_key`: the stored key is the key's bytes. */
  function DecodeRawKey(key: Key): (r: seq<Byte>)
    ensures EncodeRawKey(r) == key
  {
    AsRaw(key)
  }

  /** `encode_raw_key`: wrap the bytes as a key. */
  function EncodeRawKey(key: seq<Byte>): (r: Key)
    ensures IntoRaw(r) == key
  {
    FromRaw(key)
  }

  /** Keys pass through the format unchanged, in both directions. */
  lemma RawKeyRoundTrip(key: seq<Byte>, k: Key)
    ensures DecodeRawKey(EncodeRawKey(key)) == key
    ensures EncodeRawKey(DecodeRawKey(k)) == k
  {
  }

  // ---------------------------------------------------------------------------
  // Values

  /**
   * The status word an encoder writes: the value's status, with
   * `IS_TOMBSTONE` inserted when the value is a tombstone.
   */
  function StoredStatus(v: RawValue): (r: StatusCode)
    ensures IsTombstone(r) <==> v.tombstone || IsTombstone(v.status)
    ensures r.bits & !IS_TOMBSTONE.bits == v.status.bits & !IS_TOMBSTONE.bits
    ensures UserStatus(r) == UserStatus(v.status)
  {
    if v.tombstone then (InsertTombstone(v.status); Insert(v.status, IS_TOMBSTONE)) else v.status
  }

  /** An eight-byte slice is read whole: it is the encoding of the word read from it. */
  lemma ReadsWholeWord(slice: seq<Byte>)
    requires |slice| == U64_SIZE
    ensures DecodeU64(slice).result.Ok?
    ensures slice == EncodeU64([], DecodeU64(slice).result.value)
  {
    var r := DecodeU64(slice);
    assert |r.cursor| == 0;
  }

  /**
   * `decode_raw_value`: split off the status (last eight bytes) and the
   * timestamp (the eight before), keeping the rest as the user value. Fewer
   * than sixteen bytes give `None`.
   */
  function DecodeRawValue(bytes: seq<Byte>): (r: Option<RawValue>)
    ensures r.None? <==> |bytes| < TRAILER_SIZE
    ensures r.Some? ==>
      && r.value.ts.Some?
      && bytes == r.value.userValue + EncodeU64([], r.value.ts.value) + EncodeU64([], r.value.status.bits)
      && r.value.tombstone == IsTombstone(r.value.status)
  {
    match CheckedSub(|bytes|, U64_SIZE)
    case None => None
    case Some(statusStart) =>
      var statusRead := DecodeU64(bytes[statusStart..]);
      var status := FromU64(statusRead.result.UnwrapOr(0));
      var tombstone := IsTombstone(status);
      match CheckedSub(statusStart, U64_SIZE)
      case None => None
      case Some(restLen) =>
        var tsRead := DecodeU64(bytes[restLen..restLen + U64_SIZE]);
        var ts := tsRead.result.UnwrapOr(0);
        ReadsWholeWord(bytes[statusStart..]);
        ReadsWholeWord(bytes[restLen..restLen + U64_SIZE]);
        assert bytes == bytes[..restLen] + bytes[restLen..restLen + U64_SIZE] + bytes[statusStart..];
        Some(RawValue(bytes[..restLen], Some(ts), status, tombstone))
  }

  /**
   * `encode_raw_value`: copy the user bytes into a new buffer, then append
   * the timestamp (`None` is written as 0) and the stored status.
   */
  function EncodeRawValue(v: RawValue): (r: seq<Byte>)
    ensures |r| == |v.userValue| + TRAILER_SIZE
    ensures r[..|v.userValue|] == v.userValue
    ensures FromBeBytes64(r[|v.userValue|..|v.userValue| + U64_SIZE]) == v.ts.UnwrapOr(0)
    ensures FromBeBytes64(r[|v.userValue| + U64_SIZE..]) == StoredStatus(v).bits
  {
    var buf := [] + v.userValue;
    var withTs := EncodeU64(buf, v.ts.UnwrapOr(0));
    assert withTs[..|buf|] == buf;
    var r := EncodeU64(withTs, StoredStatus(v).bits);
    assert r[..|withTs|] == withTs;
    assert r[|buf|..|buf| + U64_SIZE] == withTs[|buf|..];
    r
  }

  /**
   * `encode_raw_value_owned`: the same trailer, appended to the value's own
   * buffer instead of a copy. The bytes are those of `encode_raw_value`.
   */
  function EncodeRawValueOwned(v: RawValue): (r: seq<Byte>)
    ensures r == EncodeRawValue(v)
  {
    var withTs := EncodeU64(v.userValue, v.ts.UnwrapOr(0));
    EncodeU64(withTs, StoredStatus(v).bits)
  }

  /** The wire layout: user bytes, then the timestamp word, then the stored status word. */
  lemma EncodeLayout(v: RawValue)
    ensures EncodeRawValue(v) == v.userValue + EncodeU64([], v.ts.UnwrapOr(0)) + EncodeU64([], StoredStatus(v).bits)
  {
    var withTs := EncodeU64([] + v.userValue, v.ts.UnwrapOr(0));
    assert [] + v.userValue == v.userValue;
    EncodeU64Appends(v.userValue, v.ts.UnwrapOr(0));
    EncodeU64Appends(withTs, StoredStatus(v).bits);
  }

  /**
   * Decoding an encoded value gives back its bytes and timestamp (`None`
   * reads back as `Some(0)`) and the stored status. It is a tombstone when
   * the value was a tombstone or its status already carried the flag.
   */
  lemma DecodeAfterEncode(v: RawValue)
    ensures DecodeRawValue(EncodeRawValue(v))
         == Some(RawValue(v.userValue, Some(v.ts.UnwrapOr(0)), StoredStatus(v), v.tombstone || IsTombstone(v.status)))
  {
    var d := DecodeRawValue(EncodeRawValue(v)).value;
    EncodeLayout(v);
    LayoutInjective(d.userValue, d.ts.value, d.status.bits, v.userValue, v.ts.UnwrapOr(0), StoredStatus(v).bits);
  }

  /** A stored value determines its user bytes, timestamp word and status word. */
  lemma LayoutInjective(p1: seq<Byte>, t1: bv64, s1: bv64, p2: seq<Byte>, t2: bv64, s2: bv64)
    requires p1 + EncodeU64([], t1) + EncodeU64([], s1) == p2 + EncodeU64([], t2) + EncodeU64([], s2)
    ensures p1 == p2 && t1 == t2 && s1 == s2
  {
    var b := p1 + EncodeU64([], t1) + EncodeU64([], s1);
    var n := |p1|;
    assert p1 == b[..n] == p2;
    assert EncodeU64([], t1) == b[n..n + U64_SIZE] == EncodeU64([], t2);
    assert EncodeU64([], s1) == b[n + U64_SIZE..] == EncodeU64([], s2);
  }

  /** What a reader of a decoded encoding observes: user status, tombstone and validity. */
  lemma DecodeAfterEncodeObservations(v: RawValue)
    ensures DecodeRawValue(EncodeRawValue(v)).Some?
    ensures UserStatus(DecodeRawValue(EncodeRawValue(v)).value.status) == UserStatus(v.status)
    ensures DecodeRawValue(EncodeRawValue(v)).value.tombstone <==> v.tombstone || IsTombstone(v.status)
    ensures IsValid(DecodeRawValue(EncodeRawValue(v)).value) <==> IsValid(v) && !IsTombstone(v.status)
  {
    DecodeAfterEncode(v);
  }

  /** Every stored value of at least sixteen bytes is re-encoded byte for byte. */
  lemma EncodeAfterDecode(bytes: seq<Byte>)
    requires |bytes| >= TRAILER_SIZE
    ensures EncodeRawValue(DecodeRawValue(bytes).value) == bytes
  {
    var d := DecodeRawValue(bytes).value;
    if d.tombstone {
      InsertPresent(d.status, IS_TOMBSTONE);
    }
    assert StoredStatus(d) == d.status;
    EncodeLayout(d);
  }

  /** The null-value example: an empty, untimed, good value is sixteen zero bytes and reads back valid. */
  lemma NullValueExample()
    ensures EncodeRawValueOwned(RawValue([], None, GOOD, false)) == seq(16, _ => 0)
    ensures DecodeRawValue(seq(16, _ => 0)) == Some(RawValue([], Some(0), FromU64(0), false))
    ensures IsValid(DecodeRawValue(seq(16, _ => 0)).value)
  {
    var v := RawValue([], None, GOOD, false);
    EncodeLayout(v);
    assert BeBytes64(0) == seq(8, _ => 0);
    assert EncodeRawValueOwned(v) == seq(16, _ => 0);
    DecodeAfterEncode(v);
  }

  /** The `api_v1_works` example: `"123"`, a timestamp, user status 123, deleted. */
  lemma ApiV1WorksExample()
    ensures DecodeRawKey(EncodeRawKey([0x31, 0x32, 0x33])) == [0x31, 0x32, 0x33]
    ensures var d := DecodeRawValue(EncodeRawValue(RawValue([0x31, 0x32, 0x33], Some(1654045749000), FromUserStatus(123), true)));
      && d.Some?
      && d.value.userValue == [0x31, 0x32, 0x33]
      && d.value.ts == Some(1654045749000)
      && UserStatus(d.value.status) == FromU64(123)
      && d.value.tombstone
      && !IsValid(d.value)
  {
    var v := RawValue([0x31, 0x32, 0x33], Some(1654045749000), FromUserStatus(123), true);
    DecodeAfterEncode(v);
    assert UserStatus(StoredStatus(v)) == UserStatus(FromUserStatus(123));
  }
}
