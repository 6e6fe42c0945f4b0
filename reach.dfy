/**
 * Subtrees over child-id lists: the set of ids that deleteRecordRecursively removes from the
 * record store and that invalidateSubtree walks over the cached children of in-memory handles.
 * Written as a worklist closure, so it is defined even on a corrupt (cyclic) child map.
 */
module Reach {

  /** `T` contains the children of each of its members. */
  ghost predicate ClosedUnder(kids: map<int, seq<int>>, t: set<int>) {
    forall y :: y in t && y in kids ==> forall c :: c in kids[y] ==> c in t
  }

  /** `seen`, plus everything reachable from `todo` through `kids` without passing through `seen`. */
  function Closure(kids: map<int, seq<int>>, todo: seq<int>, seen: set<int>): set<int>
    decreases |kids.Keys - seen|, |todo|
  {
    if todo == [] then seen
    else if todo[0] in seen then Closure(kids, todo[1..], seen)
    else
      var x := todo[0];
      if x in kids then
        assert kids.Keys - seen == (kids.Keys - (seen + {x})) + {x};
        Closure(kids, todo[1..] + kids[x], seen + {x})
      else
        assert kids.Keys - seen == kids.Keys - (seen + {x});
        Closure(kids, todo[1..], seen + {x})
  }

  /** The id `root` and all its descendants. */
  function Subtree(kids: map<int, seq<int>>, root: int): set<int> {
    Closure(kids, [root], {})
  }

  lemma {:induction false} ClosureGrows(kids: map<int, seq<int>>, todo: seq<int>, seen: set<int>)
    ensures seen <= Closure(kids, todo, seen)
    ensures forall t :: t in todo ==> t in Closure(kids, todo, seen)
    decreases |kids.Keys - seen|, |todo|
  {
    if todo != [] {
      var x := todo[0];
      assert forall t :: t in todo ==> t == x || t in todo[1..];
      if x in seen {
        ClosureGrows(kids, todo[1..], seen);
      } else if x in kids {
        assert kids.Keys - seen == (kids.Keys - (seen + {x})) + {x};
        ClosureGrows(kids, todo[1..] + kids[x], seen + {x});
      } else {
        assert kids.Keys - seen == kids.Keys - (seen + {x});
        ClosureGrows(kids, todo[1..], seen + {x});
      }
    }
  }

  lemma {:induction false} ClosureClosed(kids: map<int, seq<int>>, todo: seq<int>, seen: set<int>)
    requires forall y :: y in seen && y in kids ==> forall c :: c in kids[y] ==> c in seen || c in todo
    ensures ClosedUnder(kids, Closure(kids, todo, seen))
    decreases |kids.Keys - seen|, |todo|
  {
    if todo != [] {
      var x := todo[0];
      assert forall t :: t in todo ==> t == x || t in todo[1..];
      if x in seen {
        ClosureClosed(kids, todo[1..], seen);
      } else if x in kids {
        assert kids.Keys - seen == (kids.Keys - (seen + {x})) + {x};
        ClosureClosed(kids, todo[1..] + kids[x], seen + {x});
      } else {
        assert kids.Keys - seen == kids.Keys - (seen + {x});
        ClosureClosed(kids, todo[1..], seen + {x});
      }
    }
  }

  lemma {:induction false} ClosureLeast(kids: map<int, seq<int>>, todo: seq<int>, seen: set<int>, t: set<int>)
    requires ClosedUnder(kids, t) && seen <= t
    requires forall c :: c in todo ==> c in t
    ensures Closure(kids, todo, seen) <= t
    decreases |kids.Keys - seen|, |todo|
  {
    if todo != [] {
      var x := todo[0];
      if x in seen {
        ClosureLeast(kids, todo[1..], seen, t);
      } else if x in kids {
        assert kids.Keys - seen == (kids.Keys - (seen + {x})) + {x};
        ClosureLeast(kids, todo[1..] + kids[x], seen + {x}, t);
      } else {
        assert kids.Keys - seen == kids.Keys - (seen + {x});
        ClosureLeast(kids, todo[1..], seen + {x}, t);
      }
    }
  }

  /**
   * The subtree of `root` is exactly the least set that holds `root` and the children of each
   * of its members: the root, and recursively every child, and nothing else.
   */
  lemma SubtreeIsLeastClosed(kids: map<int, seq<int>>, root: int)
    ensures root in Subtree(kids, root)
    ensures ClosedUnder(kids, Subtree(kids, root))
    ensures forall t :: root in t && ClosedUnder(kids, t) ==> Subtree(kids, root) <= t
  {
    ClosureGrows(kids, [root], {});
    ClosureClosed(kids, [root], {});
    forall t | root in t && ClosedUnder(kids, t)
      ensures Subtree(kids, root) <= t
    {
      ClosureLeast(kids, [root], {}, t);
    }
  }
}
