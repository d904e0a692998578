/**
 * `Key`, a thin wrapper around the raw bytes of a user key. Its equality,
 * hash and order are derived from the wrapped byte string, so keys compare
 * exactly as their bytes do.
 */
module Keys {
  import opened Bytes

  datatype Key = Key(raw: seq<Byte>)

  /** `Key::from_raw`: wrap the bytes unchanged. */
  function FromRaw(key: seq<Byte>): (k: Key)
    ensures k.raw == key
  {
    Key(key)
  }

  /** `Key::as_raw`: borrow the wrapped bytes. */
  function AsRaw(k: Key): (r: seq<Byte>)
    ensures FromRaw(r) == k
  {
    k.raw
  }

  /** `Key::into_raw`: give the wrapped bytes back, identical to `as_raw`. */
  function IntoRaw(k: Key): (r: seq<Byte>)
    ensures r == AsRaw(k)
    ensures FromRaw(r) == k
  {
    k.raw
  }

  /** The derived `Ord`: lexicographic on the raw bytes, `Equal` only on equal keys. */
  function Cmp(a: Key, b: Key): (r: Ordering)
    ensures r == Equal <==> a == b
    ensures r == Less <==> Compare(b.raw, a.raw) == Greater
  {
    CompareEqualIff(a.raw, b.raw);
    CompareAntisymmetric(a.raw, b.raw);
    Compare(a.raw, b.raw)
  }

  predicate KeyLess(a: Key, b: Key) {
    Cmp(a, b) == Less
  }

  /** Wrapping then unwrapping is the identity, on every byte string including the empty one. */
  lemma RawRoundTrip(key: seq<Byte>)
    ensures IntoRaw(FromRaw(key)) == key
    ensures AsRaw(FromRaw(key)) == key
  {
  }

  /** Keys are equal exactly when their bytes are, and the derived order agrees. */
  lemma KeyEqualIff(a: Key, b: Key)
    ensures a == b <==> AsRaw(a) == AsRaw(b)
    ensures Cmp(a, b) == Equal <==> a == b
  {
    CompareEqualIff(a.raw, b.raw);
  }

  /** The derived order on keys is a strict total order. */
  lemma KeyOrderStrictTotal(a: Key, b: Key, c: Key)
    ensures !KeyLess(a, a)
    ensures KeyLess(a, b) ==> !KeyLess(b, a)
    ensures KeyLess(a, b) && KeyLess(b, c) ==> KeyLess(a, c)
    ensures KeyLess(a, b) || a == b || KeyLess(b, a)
  {
    CompareEqualIff(a.raw, a.raw);
    CompareEqualIff(a.raw, b.raw);
    CompareAntisymmetric(a.raw, b.raw);
    CompareAntisymmetric(b.raw, a.raw);
    if KeyLess(a, b) && KeyLess(b, c) {
      LexLessTransitive(a.raw, b.raw, c.raw);
    }
  }

  /** The `key_works` examples: the empty key and `"a"` survive a round trip. */
  lemma KeyWorksExample()
    ensures IntoRaw(FromRaw([])) == []
    ensures IntoRaw(FromRaw([0x61])) == [0x61]
  {
  }
}
