/** What the hash-chained records share: field domains and the hash. */
module Records {
  import opened Encoding

  predicate NullableHex(t: Option<Text>) {
    t.Some? ==> Hex64(t.value)
  }

  const IDENTITY_BYTES := 4096

  predicate Opaque(t: Text) {
    t != [] && StrictText(t, {}) && ByteLength(t) <= IDENTITY_BYTES
  }

  predicate NullableOpaque(t: Option<Text>) {
    t.Some? ==> Opaque(t.value)
  }

  datatype Operation = TokensAttest | MappingReconcile | MappingRevoke | MappingRollback | MappingRecovery

  /** The hash never gives two of these contents the same fingerprint. */
  ghost predicate NoCollision<C(!new)>(digest: C -> Text, a: C, b: C) {
    digest(a) == digest(b) ==> a == b
  }

  /** Every fingerprint the hash gives has the right form. */
  ghost predicate Hexadecimal<C(!new)>(digest: C -> Text) {
    forall c :: Hex64(digest(c))
  }
}
