/** The per-record flag bitmask of the persistent file-system cache (a Java `int`). */
module Flags {

  const ChildrenCachedFlag: bv32 := 0x01
  const IsDirectoryFlag: bv32 := 0x02
  const IsReadOnlyFlag: bv32 := 0x04
  const MustReloadContentFlag: bv32 := 0x08

  /** `(flags & mask) != 0`, the bit test behind areChildrenLoaded, isDirectory and checkFlag. */
  predicate Has(flags: bv32, mask: bv32) {
    flags & mask != 0
  }

  /** The value setFlag computes: the bits of `mask` set or cleared according to `value`. */
  function WithFlag(flags: bv32, mask: bv32, value: bool): bv32 {
    if value then flags | mask else flags & !mask
  }

  /** setFlag leaves every bit outside `mask` as it was and sets or clears the `mask` bits. */
  lemma WithFlagBits(flags: bv32, mask: bv32, value: bool)
    ensures WithFlag(flags, mask, value) & !mask == flags & !mask
    ensures WithFlag(flags, mask, value) & mask == (if value then mask else 0)
  {
  }

  /** Setting a flag twice with the same arguments is the same as setting it once. */
  lemma WithFlagIdempotent(flags: bv32, mask: bv32, value: bool)
    ensures WithFlag(WithFlag(flags, mask, value), mask, value) == WithFlag(flags, mask, value)
  {
    if value {
      assert (flags | mask) | mask == flags | mask;
    } else {
      assert (flags & !mask) & !mask == flags & !mask;
    }
  }

  /** After setFlag the bit test on a non-empty mask answers `value`. */
  lemma WithFlagAnswers(flags: bv32, mask: bv32, value: bool)
    requires mask != 0
    ensures Has(WithFlag(flags, mask, value), mask) == value
  {
  }

  /** setFlag does not change the answer of a bit test on a disjoint mask. */
  lemma WithFlagKeepsOthers(flags: bv32, mask: bv32, value: bool, other: bv32)
    requires mask & other == 0
    ensures Has(WithFlag(flags, mask, value), other) == Has(flags, other)
  {
  }

  /** For a one-bit mask, setFlag changes the value exactly when the bit differs from `value`. */
  lemma WithFlagChanges(flags: bv32, mask: bv32, value: bool)
    requires mask == ChildrenCachedFlag || mask == IsDirectoryFlag || mask == IsReadOnlyFlag || mask == MustReloadContentFlag
    ensures (WithFlag(flags, mask, value) != flags) == (Has(flags, mask) != value)
  {
  }
}
