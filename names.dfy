/** File-name comparison of the delegate file system, and the first-match lookup of getId. */
module Names {

  /** ASCII lower-casing; `equalsIgnoreCase` is modelled on ASCII letters only. */
  function Lower(c: char): char {
    if 'A' <= c <= 'Z' then (c as int + 32) as char else c
  }

  function Fold(s: string): (r: string)
    ensures |r| == |s|
  {
    seq(|s|, i requires 0 <= i < |s| => Lower(s[i]))
  }

  /** namesEqual: exact comparison on a case-sensitive file system, case-folded otherwise. */
  predicate NamesEqual(caseSensitive: bool, a: string, b: string) {
    if caseSensitive then a == b else Fold(a) == Fold(b)
  }

  /** The empty name matches no non-empty name, whatever the case sensitivity. */
  lemma EmptyMatchesOnlyEmpty(caseSensitive: bool, a: string)
    requires |a| > 0
    ensures !NamesEqual(caseSensitive, a, "")
  {
    assert |Fold(a)| != |Fold("")|;
  }

  /**
   * Index of the first name in `names` that equals `name` under namesEqual, or -1:
   * the scan of getId over the stored child names.
   */
  function Lookup(names: seq<string>, name: string, caseSensitive: bool): (r: int)
    ensures -1 <= r < |names|
    ensures 0 <= r ==> NamesEqual(caseSensitive, name, names[r])
    ensures forall j :: 0 <= j < |names| && (r < 0 || j < r) ==> !NamesEqual(caseSensitive, name, names[j])
  {
    if names == [] then -1
    else if NamesEqual(caseSensitive, name, names[0]) then 0
    else
      var k := Lookup(names[1..], name, caseSensitive);
      if k < 0 then -1 else k + 1
  }

  /**
   * On a case-insensitive file system two names that differ only in case find the same child:
   * getId(parent, "Foo.txt") and getId(parent, "foo.txt") agree.
   */
  lemma {:induction false} LookupIgnoresCase(names: seq<string>, a: string, b: string)
    requires Fold(a) == Fold(b)
    ensures Lookup(names, a, false) == Lookup(names, b, false)
  {
    if names != [] {
      LookupIgnoresCase(names[1..], a, b);
    }
  }
}
