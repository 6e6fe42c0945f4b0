/**
 * The child-id list that persistAllChildren computes: for each name of the delegate listing, in
 * order, the stored id of the first persisted child with exactly that name (ArrayUtil.indexOf, not
 * namesEqual), or else the next freshly created record id.
 */
module Reconcile {
  import opened Seqs

  /** How many of the first `i` delegate names are not among the persisted names. */
  function NewBefore(names: seq<string>, known: seq<string>, i: nat): (n: nat)
    requires i <= |names|
    ensures n <= i
  {
    if i == 0 then 0
    else NewBefore(names, known, i - 1) + (if names[i - 1] in known then 0 else 1)
  }

  /** The id persistAllChildren stores at position `i`; fresh ids are handed out from `base` on. */
  function ReconciledId(names: seq<string>, known: seq<string>, knownIds: seq<int>, base: int, i: nat): int
    requires i < |names| && |known| == |knownIds|
  {
    var k := IndexOf(known, names[i]);
    if k >= 0 then knownIds[k] else base + NewBefore(names, known, i)
  }

  function Reconciled(names: seq<string>, known: seq<string>, knownIds: seq<int>, base: int): (r: seq<int>)
    requires |known| == |knownIds|
    ensures |r| == |names|
  {
    seq(|names|, i requires 0 <= i < |names| => ReconciledId(names, known, knownIds, base, i))
  }

  lemma {:induction false} NewBeforeGrows(names: seq<string>, known: seq<string>, i: nat, j: nat)
    requires i < j <= |names| && names[i] !in known
    ensures NewBefore(names, known, i) < NewBefore(names, known, j)
  {
    if j > i + 1 {
      NewBeforeGrows(names, known, i, j - 1);
    }
  }

  /**
   * A persisted name keeps its stored id; every other name gets its own fresh id, at or after
   * `base` and below `base` plus the number of new names, and no two new names share one.
   */
  lemma ReconciledIds(names: seq<string>, known: seq<string>, knownIds: seq<int>, base: int)
    requires |known| == |knownIds|
    ensures var r := Reconciled(names, known, knownIds, base);
      && (forall i :: 0 <= i < |names| && names[i] in known ==>
            r[i] == knownIds[IndexOf(known, names[i])] && known[IndexOf(known, names[i])] == names[i])
      && (forall i :: 0 <= i < |names| && names[i] !in known ==>
            base <= r[i] < base + NewBefore(names, known, |names|))
      && (forall i, j :: 0 <= i < j < |names| && names[i] !in known && names[j] !in known ==> r[i] != r[j])
  {
    var r := Reconciled(names, known, knownIds, base);
    forall i | 0 <= i < |names| && names[i] !in known
      ensures base <= r[i] < base + NewBefore(names, known, |names|)
    {
      NewBeforeGrows(names, known, i, |names|);
    }
    forall i, j | 0 <= i < j < |names| && names[i] !in known && names[j] !in known
      ensures r[i] != r[j]
    {
      NewBeforeGrows(names, known, i, j);
    }
  }

  /** Every id of the reconciled list is a record id: a known one, or one of the fresh ones. */
  lemma ReconciledInRange(names: seq<string>, known: seq<string>, knownIds: seq<int>, base: int)
    requires |known| == |knownIds| && 0 < base
    requires forall c :: c in knownIds ==> 0 < c < base
    ensures forall c :: c in Reconciled(names, known, knownIds, base) ==> 0 < c < base + NewBefore(names, known, |names|)
  {
    var r := Reconciled(names, known, knownIds, base);
    forall i | 0 <= i < |r|
      ensures 0 < r[i] < base + NewBefore(names, known, |names|)
    {
      assert r[i] == ReconciledId(names, known, knownIds, base, i);
      if names[i] in known {
        assert knownIds[IndexOf(known, names[i])] in knownIds;
      } else {
        NewBeforeGrows(names, known, i, |names|);
      }
    }
  }
}
