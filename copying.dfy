/** What copyRecordFromDelegateFS writes into a record. */
module Copying {
  import opened Flags
  import opened Names
  import opened DelegateFs
  import opened Records

  /** The flags copyRecordFromDelegateFS stores: the directory bit and the read-only bit, nothing else. */
  function DelegateFlags(a: Attrs): (r: bv32)
    ensures Has(r, IsDirectoryFlag) == a.isDirectory
    ensures Has(r, IsReadOnlyFlag) == !a.writable
    ensures !Has(r, ChildrenCachedFlag) && !Has(r, MustReloadContentFlag)
    ensures r & !(IsDirectoryFlag | IsReadOnlyFlag) == 0
  {
    (if a.isDirectory then IsDirectoryFlag else 0) | (if !a.writable then IsReadOnlyFlag else 0)
  }

  /** The record copyRecordFromDelegateFS writes: the length is reset to "unknown". */
  function CopiedRecord(name: string, parent: int, a: Attrs): Record {
    Record(name, parent, DelegateFlags(a), -1, a.timestamp, a.crc)
  }

  /**
   * copyRecordFromDelegateFS leaves the record alone when a non-empty name already matches the
   * stored one, or when the name is empty and the children are already cached.
   */
  predicate KeepsRecord(r: Record, name: string, caseSensitive: bool) {
    || (|name| > 0 && NamesEqual(caseSensitive, name, r.name))
    || (|name| == 0 && Has(r.flags, ChildrenCachedFlag))
  }

  /** A freshly created record is always overwritten. */
  lemma FreshRecordIsCopied(name: string, caseSensitive: bool)
    ensures !KeepsRecord(EmptyRecord, name, caseSensitive)
  {
    if |name| > 0 {
      EmptyMatchesOnlyEmpty(caseSensitive, name);
    }
  }
}
