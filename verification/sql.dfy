/** The comparison helper `_eq` of the persistence layer, with SQL's NULL semantics
    written out so that the difference from a plain `col = value` is visible. */
module Sql {
  import opened Wrappers

  /** SQL's `col = v` in a WHERE clause: a NULL on either side is never true. */
  function SqlEquals<T(==)>(col: Option<T>, v: Option<T>): bool {
    col.Some? && v.Some? && col.value == v.value
  }

  /** SQL's `col IS NULL`. */
  function SqlIsNull<T>(col: Option<T>): bool {
    col.None?
  }

  /** `_eq(col, v)`: `col IS NULL` when `v` is None, and `col = v` otherwise. It holds
      exactly when the column and the value are equal as optional values, so an absent
      value matches only an absent column. */
  function NullAwareEq<T(==)>(col: Option<T>, v: Option<T>): (b: bool)
    ensures b <==> col == v
    ensures v.None? ==> (b <==> col.None?)
    ensures v.Some? ==> (b <==> col == v)
  {
    if v.None? then SqlIsNull(col) else SqlEquals(col, v)
  }

  /** A plain `col = NULL` comparison never matches, which is why `_eq` exists: with it
      two rows without a source id would never be recognised as the same task. */
  lemma PlainEqualityMissesNull<T>(col: Option<T>)
    ensures !SqlEquals(col, None)
    ensures NullAwareEq(col, None) <==> col == None
  {
  }
}
