/**
 * The in-memory file handles (VirtualFileSystemEntry / VirtualDirectoryImpl) the cache hands out,
 * reduced to what the cache reads and writes on them, and the rank order of getRoots.
 */
module Entries {
  import opened DelegateFs
  import opened Reach

  /**
   * One in-memory file: its name, the id of its parent handle (0 for a root), its delegate
   * file system, the ids of its cached children, whether it is still valid, and its
   * modification stamp. A handle's key is the id of its record.
   */
  datatype Handle = Handle(name: string, parent: int, fs: FileSystem, kids: seq<int>, valid: bool, stamp: int)

  /** The cached-children relation of a set of handles. */
  function KidsOf(hs: map<int, Handle>): map<int, seq<int>> {
    map k | k in hs :: hs[k].kids
  }

  /** invalidateSubtree: `f` and every cached descendant of it become invalid. */
  function Invalidate(hs: map<int, Handle>, f: int): map<int, Handle> {
    var gone := Subtree(KidsOf(hs), f);
    map k | k in hs :: if k in gone then hs[k].(valid := false) else hs[k]
  }

  /**
   * Invalidation touches only the `valid` bit, clears it on `f`, on each cached child of
   * every handle it clears, and on nothing outside the least such set.
   */
  lemma InvalidateMarksSubtree(hs: map<int, Handle>, f: int)
    ensures var r := Invalidate(hs, f);
      var gone := Subtree(KidsOf(hs), f);
      && r.Keys == hs.Keys
      && (f in hs ==> !r[f].valid)
      && (forall k :: k in hs ==> r[k] == hs[k].(valid := r[k].valid))
      && (forall k, c :: k in hs && !r[k].valid && k in gone && c in hs[k].kids && c in hs ==> !r[c].valid)
      && (forall k :: k in hs && k !in gone ==> r[k] == hs[k])
      && (forall t :: f in t && ClosedUnder(KidsOf(hs), t) ==> gone <= t)
  {
    SubtreeIsLeastClosed(KidsOf(hs), f);
  }

  /** The rank of a root's file system, the key getRoots sorts on. */
  function Rank(hs: map<int, Handle>, id: int): int {
    if id in hs then hs[id].fs.rank else 0
  }

  predicate SortedByRank(hs: map<int, Handle>, s: seq<int>) {
    forall i, j :: 0 <= i < j < |s| ==> Rank(hs, s[i]) <= Rank(hs, s[j])
  }

  /** Insert `x` after every entry of no greater rank. */
  function InsertByRank(hs: map<int, Handle>, x: int, s: seq<int>): (r: seq<int>)
    requires SortedByRank(hs, s)
    ensures SortedByRank(hs, r)
    ensures multiset(r) == multiset(s) + multiset{x}
    ensures forall i :: 0 <= i < |r| ==> r[i] == x || r[i] in s
  {
    if s == [] || Rank(hs, s[|s| - 1]) <= Rank(hs, x) then s + [x]
    else
      var init := s[..|s| - 1];
      var last := s[|s| - 1];
      assert s == init + [last];
      var r' := InsertByRank(hs, x, init);
      assert forall i :: 0 <= i < |r'| ==> Rank(hs, r'[i]) <= Rank(hs, last);
      r' + [last]
  }

  /** Collections.sort of the roots by the rank of their file systems. */
  function SortByRank(hs: map<int, Handle>, s: seq<int>): (r: seq<int>)
    ensures SortedByRank(hs, r)
    ensures multiset(r) == multiset(s)
  {
    if s == [] then []
    else
      var init := s[..|s| - 1];
      assert s == init + [s[|s| - 1]];
      InsertByRank(hs, s[|s| - 1], SortByRank(hs, init))
  }
}
