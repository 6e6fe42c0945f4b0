/** The id-list helpers the cache uses from ArrayUtil: indexOf, remove-at-index-of and append. */
module Seqs {

  /** ArrayUtil.indexOf: position of the first occurrence of `x`, or -1. */
  function IndexOf<T(==)>(s: seq<T>, x: T): (r: int)
    ensures -1 <= r < |s|
    ensures r < 0 <==> x !in s
    ensures 0 <= r ==> s[r] == x && x !in s[..r]
  {
    if s == [] then -1
    else if s[0] == x then 0
    else
      var k := IndexOf(s[1..], x);
      assert k >= 0 ==> s[..k + 1] == [s[0]] + s[1..][..k];
      if k < 0 then -1 else k + 1
  }

  /**
   * `ArrayUtil.remove(s, ArrayUtil.indexOf(s, x))`: drop the first occurrence of `x`.
   * An absent `x` leaves the list as it is.
   */
  function Remove<T(==)>(s: seq<T>, x: T): (r: seq<T>)
    ensures x !in s ==> r == s
    ensures x in s ==> |r| == |s| - 1 && multiset(r) == multiset(s) - multiset{x}
    ensures forall y :: y in r ==> y in s
  {
    var k := IndexOf(s, x);
    if k < 0 then s
    else
      assert s == s[..k] + [x] + s[k + 1..];
      s[..k] + s[k + 1..]
  }

  /** Reference definition for id lists: `s` with every occurrence of `x` erased, the others kept in order. */
  function Without(s: seq<int>, x: int): (r: seq<int>)
    ensures x !in r
    ensures forall y :: y != x ==> (y in r <==> y in s)
  {
    if s == [] then []
    else if s[0] == x then Without(s[1..], x)
    else [s[0]] + Without(s[1..], x)
  }

  lemma {:induction false} WithoutAbsent(s: seq<int>, x: int)
    requires x !in s
    ensures Without(s, x) == s
  {
    if s != [] {
      WithoutAbsent(s[1..], x);
    }
  }

  lemma RemoveCons(s: seq<int>, x: int)
    requires s != [] && s[0] != x
    ensures Remove(s, x) == [s[0]] + Remove(s[1..], x)
  {
    if x in s[1..] {
      var k := IndexOf(s[1..], x);
      assert IndexOf(s, x) == k + 1;
      assert s[..k + 1] == [s[0]] + s[1..][..k];
      assert s[k + 2..] == s[1..][k + 1..];
    } else {
      assert s == [s[0]] + s[1..];
    }
  }

  /**
   * In a list holding `x` at most once, removing `x` is erasing it: every other entry
   * keeps its relative order.
   */
  lemma {:induction false} RemoveKeepsOrder(s: seq<int>, x: int)
    requires multiset(s)[x] <= 1
    ensures Remove(s, x) == Without(s, x)
  {
    if s == [] {
    } else {
      assert s == [s[0]] + s[1..];
      assert multiset(s) == multiset{s[0]} + multiset(s[1..]);
      if s[0] == x {
        assert x !in s[1..];
        WithoutAbsent(s[1..], x);
      } else {
        RemoveCons(s, x);
        RemoveKeepsOrder(s[1..], x);
      }
    }
  }

  /** Appending `x` at the end leaves the other entries and their order as they were. */
  lemma {:induction false} AppendKeepsOrder(s: seq<int>, x: int)
    ensures Without(s + [x], x) == Without(s, x)
  {
    if s == [] {
      assert [x][1..] == [];
    } else {
      assert (s + [x])[1..] == s[1..] + [x];
      AppendKeepsOrder(s[1..], x);
    }
  }
}
