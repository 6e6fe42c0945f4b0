/**
 * PersistentFS: the persistent cache of the virtual file system. It mirrors the delegate file
 * systems into the record store, keeps the child-id lists of directories, registers the roots
 * and applies change events to the store and to the in-memory handles.
 */
module PersistentFs {
  import opened Flags
  import opened Names
  import opened Seqs
  import opened Reach
  import opened DelegateFs
  import opened Events
  import opened Reconcile
  import opened Records
  import opened Entries
  import opened Copying
  import opened Content

  datatype Option<T> = None | Some(value: T)

  /** An error the cache reports to its logger and then carries on. */
  datatype Diagnostic = CyclicParent(id: int) | DeleteMissing(id: int)

  /** One step of a change batch: a notice on the message bus, or an event applied to the cache. */
  datatype Step = Published(notice: Notice) | Applied(event: Event)

  function AppliedSteps(events: seq<Event>): seq<Step> {
    seq(|events|, i requires 0 <= i < |events| => Applied(events[i]))
  }

  /**
   * executeMove takes `what` out of its old parent's list and appends it to the new parent's.
   * When `what` is listed at most once, every other id keeps its place relative to the others,
   * `what` ends up last in the new parent's list, and it leaves the old parent's list.
   */
  lemma MoveListsKeepOrder(lists: map<int, seq<int>>, what: int, oldParent: int, newParent: int)
    requires multiset(ListOf(lists, oldParent))[what] <= 1
    ensures var l1 := lists[oldParent := Remove(ListOf(lists, oldParent), what)];
      var l2 := l1[newParent := ListOf(l1, newParent) + [what]];
      && Without(ListOf(l2, oldParent), what) == Without(ListOf(lists, oldParent), what)
      && Without(ListOf(l2, newParent), what) == Without(ListOf(lists, newParent), what)
      && ListOf(l2, newParent)[|ListOf(l2, newParent)| - 1] == what
      && (oldParent != newParent ==> what !in ListOf(l2, oldParent))
      && (forall k :: k != oldParent && k != newParent ==> ListOf(l2, k) == ListOf(lists, k))
  {
    var removed := Remove(ListOf(lists, oldParent), what);
    RemoveKeepsOrder(ListOf(lists, oldParent), what);
    WithoutAbsent(removed, what);
    var l1 := lists[oldParent := removed];
    AppendKeepsOrder(ListOf(l1, newParent), what);
  }

  /**
   * The records persistAllChildren creates for the first `i` delegate names: one per name not
   * among the persisted names, numbered from `base` in listing order, copied from the delegate.
   */
  function CreatedRecords(names: seq<string>, known: seq<string>, parent: int, d: Delegate, base: int, i: nat): map<int, Record>
    requires i <= |names|
  {
    if i == 0 then map[]
    else
      var m := CreatedRecords(names, known, parent, d, base, i - 1);
      var name := names[i - 1];
      if name in known then m
      else m[base + NewBefore(names, known, i - 1) := CopiedRecord(name, parent, d.Attr(ChildPath(parent, name)))]
  }

  /** persistAllChildren creates records only from `base` on, one per new name. */
  lemma {:induction false} CreatedRecordsRange(names: seq<string>, known: seq<string>, parent: int, d: Delegate, base: int, n: nat)
    requires n <= |names|
    ensures forall k :: k in CreatedRecords(names, known, parent, d, base, n) ==> base <= k < base + NewBefore(names, known, n)
  {
    if n > 0 {
      CreatedRecordsRange(names, known, parent, d, base, n - 1);
    }
  }

  /** The record created for the new name at position `i` is the delegate's copy of that name. */
  lemma {:induction false} CreatedRecordAt(names: seq<string>, known: seq<string>, parent: int, d: Delegate, base: int, n: nat, i: nat)
    requires i < n <= |names| && names[i] !in known
    ensures var m := CreatedRecords(names, known, parent, d, base, n);
      && base + NewBefore(names, known, i) in m
      && m[base + NewBefore(names, known, i)] == CopiedRecord(names[i], parent, d.Attr(ChildPath(parent, names[i])))
  {
    if i < n - 1 {
      CreatedRecordAt(names, known, parent, d, base, n - 1, i);
      NewBeforeGrows(names, known, i, n - 1);
    }
  }

  /**
   * After persistAllChildren the stored names of the new child list are the delegate's names:
   * a kept id still carries the persisted name it was matched on, a created one the new name.
   */
  lemma ReconciledNames(records: map<int, Record>, names: seq<string>, known: seq<string>, knownIds: seq<int>,
                        base: int, f: int, d: Delegate)
    requires |known| == |knownIds|
    requires forall j :: 0 <= j < |knownIds| ==> known[j] == (if knownIds[j] in records then records[knownIds[j]] else EmptyRecord).name
    requires forall c :: c in knownIds ==> c < base
    ensures var after := records + CreatedRecords(names, known, f, d, base, |names|);
      var ids := Reconciled(names, known, knownIds, base);
      forall i :: 0 <= i < |names| ==> (if ids[i] in after then after[ids[i]] else EmptyRecord).name == names[i]
  {
    var created := CreatedRecords(names, known, f, d, base, |names|);
    CreatedRecordsRange(names, known, f, d, base, |names|);
    var ids := Reconciled(names, known, knownIds, base);
    forall i | 0 <= i < |names| && names[i] !in known
      ensures ids[i] in created && created[ids[i]].name == names[i]
    {
      CreatedRecordAt(names, known, f, d, base, |names|, i);
    }
    forall i | 0 <= i < |names| && names[i] in known
      ensures ids[i] !in created
    {
      assert knownIds[IndexOf(known, names[i])] in knownIds;
    }
  }

  /**
   * persistAllChildren forgets, without deleting, a persisted child the delegate no longer
   * lists: its id leaves the parent's new list, and its record stays in the store as it was.
   */
  lemma {:induction false} DroppedChildKeepsRecord(records: map<int, Record>, names: seq<string>, known: seq<string>,
                                                   knownIds: seq<int>, base: int, f: int, fr: Record, d: Delegate, j: int)
    requires |known| == |knownIds| && 0 <= j < |knownIds| && known[j] !in names
    requires forall k :: 0 <= k < |knownIds| && knownIds[k] == knownIds[j] ==> k == j
    requires forall c :: c in knownIds ==> c < base
    requires knownIds[j] != f
    ensures knownIds[j] !in Reconciled(names, known, knownIds, base)
    ensures var after := (records + CreatedRecords(names, known, f, d, base, |names|))[f := fr];
      knownIds[j] in records ==> knownIds[j] in after && after[knownIds[j]] == records[knownIds[j]]
  {
    var c := knownIds[j];
    var r := Reconciled(names, known, knownIds, base);
    forall i | 0 <= i < |r|
      ensures r[i] != c
    {
      assert r[i] == ReconciledId(names, known, knownIds, base, i);
      var k := IndexOf(known, names[i]);
      if k >= 0 {
        assert known[k] == names[i];
        assert k != j;
      } else {
        assert c in knownIds;
      }
    }
    CreatedRecordsRange(names, known, f, d, base, |names|);
    assert c in knownIds;
  }

  /** The URLs among `keys` whose registered root belongs to `fs`. */
  function MatchingUrls(roots: map<string, int>, handles: map<int, Handle>, keys: set<string>, fs: FileSystem): set<string> {
    set u | u in keys && u in roots && roots[u] in handles && handles[roots[u]].fs == fs
  }

  lemma MatchingUrlsStep(roots: map<string, int>, handles: map<int, Handle>, keys: set<string>, u: string, fs: FileSystem)
    requires u !in keys
    ensures |MatchingUrls(roots, handles, keys + {u}, fs)| ==
      |MatchingUrls(roots, handles, keys, fs)| + (if u in roots && roots[u] in handles && handles[roots[u]].fs == fs then 1 else 0)
  {
    if u in roots && roots[u] in handles && handles[roots[u]].fs == fs {
      assert MatchingUrls(roots, handles, keys + {u}, fs) == MatchingUrls(roots, handles, keys, fs) + {u};
    } else {
      assert MatchingUrls(roots, handles, keys + {u}, fs) == MatchingUrls(roots, handles, keys, fs);
    }
  }

  class PersistentFS {
    const store: RecordStore
    /** myRoots: the root handle registered for each `protocol://basePath`. */
    var roots: map<string, int>
    /** The in-memory handles, by record id; a deleted file's handle stays, invalidated. */
    var handles: map<int, Handle>
    /** What the message bus has carried so far. */
    var published: seq<Notice>
    /** What the logger has been sent. */
    var diagnostics: seq<Diagnostic>
    /** Notices and applied events, in the order they happened. */
    ghost var trace: seq<Step>

    ghost predicate Valid()
      reads this, store
    {
      && store.Valid()
      && (forall f :: f in handles ==> 0 < f < store.nextId)
      && (forall f :: f in handles ==> handles[f].parent == 0 || handles[f].parent in handles)
      && (forall u :: u in roots ==> roots[u] in handles)
    }

    constructor ()
      ensures Valid() && fresh(store)
      ensures roots == map[] && handles == map[] && published == [] && diagnostics == [] && trace == []
      ensures store.records == map[] && store.lists == map[] && store.rootRecords == map[] && store.contents == map[]
    {
      store := new RecordStore();
      roots, handles, published, diagnostics, trace := map[], map[], [], [], [];
    }

    /** The handles that are still valid: the files events may refer to. */
    function Live(): set<int>
      reads this
    {
      set f | f in handles && handles[f].valid
    }

    /** How the delegate addresses the file of handle `f`. */
    function PathOf(f: int): Path
      requires f in handles
      reads this
    {
      var h := handles[f];
      if h.parent == 0 then RootPath(h.fs, h.name) else ChildPath(h.parent, h.name)
    }

    /** checkFlag: the bit test on the stored flags. */
    predicate CheckFlag(id: int, mask: bv32)
      reads this, store
    {
      Has(store.Rec(id).flags, mask)
    }

    predicate AreChildrenLoaded(id: int)
      reads this, store
    {
      CheckFlag(id, ChildrenCachedFlag)
    }

    predicate IsDirectory(id: int)
      reads this, store
    {
      CheckFlag(id, IsDirectoryFlag)
    }

    predicate IsWritable(id: int)
      reads this, store
    {
      !CheckFlag(id, IsReadOnlyFlag)
    }

    /** Every record other than those in `changed` reads as it did. */
    twostate predicate OtherRecordsKept(changed: set<int>)
      reads this, store
    {
      forall k :: k !in changed ==> store.Rec(k) == old(store.Rec(k))
    }

    /** The cache's own fields, other than the store, are as they were. */
    twostate predicate CacheKept()
      reads this
    {
      handles == old(handles) && roots == old(roots) && published == old(published)
      && diagnostics == old(diagnostics)
    }

    /** The effect of setFlag(f, mask, value): the flags are rewritten only if they change. */
    twostate predicate FlagDone(f: int, mask: bv32, value: bool)
      reads this, store
    {
      var f0 := old(store.Rec(f)).flags;
      var f1 := WithFlag(f0, mask, value);
      && store.Rec(f) == old(store.Rec(f)).(flags := f1)
      && OtherRecordsKept({f})
      && store.flagWrites == old(store.flagWrites) + (if f1 != f0 then 1 else 0)
      && store.lists == old(store.lists) && store.rootRecords == old(store.rootRecords)
      && store.contents == old(store.contents) && store.nextId == old(store.nextId)
      && CacheKept()
    }

    method SetFlag(f: int, mask: bv32, value: bool)
      requires Valid() && f in handles
      modifies store
      ensures Valid()
      ensures FlagDone(f, mask, value)
    {
      var oldFlags := store.Rec(f).flags;
      var flags := WithFlag(oldFlags, mask, value);
      if oldFlags != flags {
        store.SetFlags(f, flags);
      }
    }

    /** listPersisted: the stored names of the stored children, in list order. */
    method ListPersisted(f: int) returns (names: seq<string>)
      requires Valid() && f in handles
      ensures |names| == |store.List(f)|
      ensures forall i :: 0 <= i < |names| ==> names[i] == store.Rec(store.List(f)[i]).name
    {
      var childrenIds := store.List(f);
      var a := new string[|childrenIds|];
      for i := 0 to |childrenIds|
        invariant forall j :: 0 <= j < i ==> a[j] == store.Rec(childrenIds[j]).name
      {
        a[i] := store.Rec(childrenIds[i]).name;
      }
      names := a[..];
    }

    /** copyRecordFromDelegateFS(id, parentId, file) for the file the delegate knows as `p`. */
    method CopyRecordFromDelegate(id: int, parentId: int, p: Path, name: string, caseSensitive: bool, d: Delegate)
      requires Valid() && 0 < id < store.nextId
      modifies this, store
      ensures Valid()
      ensures handles == old(handles) && roots == old(roots) && published == old(published) && trace == old(trace)
      ensures store.lists == old(store.lists) && store.rootRecords == old(store.rootRecords)
      ensures store.contents == old(store.contents) && store.nextId == old(store.nextId)
      ensures id == parentId ==>
        && diagnostics == old(diagnostics) + [CyclicParent(id)]
        && store.records == old(store.records) && store.flagWrites == old(store.flagWrites)
      ensures id != parentId && KeepsRecord(old(store.Rec(id)), name, caseSensitive) ==>
        && diagnostics == old(diagnostics)
        && store.records == old(store.records) && store.flagWrites == old(store.flagWrites)
      ensures id != parentId && !KeepsRecord(old(store.Rec(id)), name, caseSensitive) ==>
        && diagnostics == old(diagnostics)
        && store.records == old(store.records)[id := CopiedRecord(name, parentId, d.Attr(p))]
        && store.flagWrites == old(store.flagWrites) + 1
    {
      if id == parentId {
        diagnostics := diagnostics + [CyclicParent(id)];
        return;
      }
      if |name| > 0 && NamesEqual(caseSensitive, name, store.Rec(id).name) {
        return;
      }
      if |name| == 0 {
        if AreChildrenLoaded(id) {
          return;
        }
      }
      var a := d.Attr(p);
      store.SetAll(id, CopiedRecord(name, parentId, a));
    }

    /**
     * The effect of persistAllChildren(f): the delegate's listing of `f` becomes its child list,
     * position by position the id of the persisted child with exactly that name or a new record
     * copied from the delegate, and the children of `f` are marked cached.
     */
    twostate predicate PersistDone(f: int, d: Delegate, names: seq<string>)
      reads this, store
    {
      && f in old(handles)
      && var known := old(store.NamesOf(store.List(f)));
      var knownIds := old(store.List(f));
      var base := old(store.nextId);
      && names == d.List(old(PathOf(f)))
      && store.nextId == base + NewBefore(names, known, |names|)
      && store.lists == old(store.lists)[f := Reconciled(names, known, knownIds, base)]
      && store.records == (old(store.records) + CreatedRecords(names, known, f, d, base, |names|))
           [f := old(store.Rec(f)).(flags := old(store.Rec(f)).flags | ChildrenCachedFlag)]
      && store.flagWrites == old(store.flagWrites) + NewBefore(names, known, |names|) + 1
      && store.rootRecords == old(store.rootRecords) && store.contents == old(store.contents)
      && CacheKept()
    }

    /**
     * Position `i` of persistAllChildren: the stored id of the persisted child named exactly
     * `names[i]`, or else a new record copied from the delegate.
     */
    method ChildIdFor(f: int, names: seq<string>, i: nat, known: seq<string>, knownIds: seq<int>,
                      ghost base: int, caseSensitive: bool, d: Delegate) returns (id: int)
      requires Valid() && f in handles && |known| == |knownIds| && i < |names|
      requires forall c :: c in knownIds ==> 0 < c < base
      requires store.nextId == base + NewBefore(names, known, i)
      modifies this, store
      ensures Valid() && CacheKept()
      ensures store.lists == old(store.lists) && store.rootRecords == old(store.rootRecords)
      ensures store.contents == old(store.contents)
      ensures id == ReconciledId(names, known, knownIds, base, i)
      ensures store.nextId == base + NewBefore(names, known, i + 1)
      ensures store.flagWrites == old(store.flagWrites) + (NewBefore(names, known, i + 1) - NewBefore(names, known, i))
      ensures store.records == if names[i] in known then old(store.records)
        else old(store.records)[id := CopiedRecord(names[i], f, d.Attr(ChildPath(f, names[i])))]
    {
      var idx := IndexOf(known, names[i]);
      if idx >= 0 {
        id := knownIds[idx];
      } else {
        id := store.CreateRecord();
        FreshRecordIsCopied(names[i], caseSensitive);
        CopyRecordFromDelegate(id, f, ChildPath(f, names[i]), names[i], caseSensitive, d);
      }
    }

    /**
     * The loop of persistAllChildren: the id for each delegate name, creating and copying a
     * record for each name not among the persisted `known` names.
     */
    method ReconcileChildren(f: int, names: seq<string>, known: seq<string>, knownIds: seq<int>,
                             caseSensitive: bool, d: Delegate) returns (ids: seq<int>)
      requires Valid() && f in handles && |known| == |knownIds|
      requires forall c :: c in knownIds ==> 0 < c < store.nextId
      modifies this, store
      ensures Valid() && CacheKept()
      ensures ids == Reconciled(names, known, knownIds, old(store.nextId))
      ensures store.nextId == old(store.nextId) + NewBefore(names, known, |names|)
      ensures store.flagWrites == old(store.flagWrites) + NewBefore(names, known, |names|)
      ensures store.records == old(store.records) + CreatedRecords(names, known, f, d, old(store.nextId), |names|)
      ensures store.lists == old(store.lists) && store.rootRecords == old(store.rootRecords)
      ensures store.contents == old(store.contents)
    {
      ghost var base := store.nextId;
      var childrenIds := new int[|names|];
      for i := 0 to |names|
        invariant Valid() && CacheKept()
        invariant store.nextId == base + NewBefore(names, known, i)
        invariant store.flagWrites == old(store.flagWrites) + NewBefore(names, known, i)
        invariant store.records == old(store.records) + CreatedRecords(names, known, f, d, base, i)
        invariant store.lists == old(store.lists) && store.rootRecords == old(store.rootRecords)
        invariant store.contents == old(store.contents)
        invariant forall j :: 0 <= j < i ==> childrenIds[j] == ReconciledId(names, known, knownIds, base, j)
      {
        var id := ChildIdFor(f, names, i, known, knownIds, base, caseSensitive, d);
        childrenIds[i] := id;
      }
      ids := childrenIds[..];
    }

    /** persistAllChildren: reconcile the child list of `f` with the delegate's listing. */
    method PersistAllChildren(f: int, d: Delegate) returns (names: seq<string>)
      requires Valid() && f in handles
      modifies this, store
      ensures Valid()
      ensures PersistDone(f, d, names)
      ensures AreChildrenLoaded(f)
      ensures store.NamesOf(store.List(f)) == names
    {
      var currentNames := ListPersisted(f);
      var currentIds := store.List(f);
      assert currentNames == store.NamesOf(currentIds);
      ghost var base := store.nextId;
      ghost var before := store.records;
      names := d.List(PathOf(f));
      var ids := ReconcileChildren(f, names, currentNames, currentIds, handles[f].fs.caseSensitive, d);
      ReconciledInRange(names, currentNames, currentIds, base);
      CreatedRecordsRange(names, currentNames, f, d, base, |names|);
      assert store.Rec(f) == old(store.Rec(f));
      ReconciledNames(before, names, currentNames, currentIds, base, f, d);
      ghost var mid := store.records;
      StoreChildList(f, ids);
      forall i | 0 <= i < |ids|
        ensures store.Rec(ids[i]).name == names[i]
      {
        assert store.Rec(ids[i]).name == (if ids[i] in mid then mid[ids[i]] else EmptyRecord).name;
      }
    }

    /** The last steps of persistAllChildren: store the new child list, then mark the children cached. */
    method StoreChildList(f: int, ids: seq<int>)
      requires Valid() && f in handles
      requires forall c :: c in ids ==> 0 < c < store.nextId
      modifies store
      ensures Valid()
      ensures store.lists == old(store.lists)[f := ids]
      ensures store.records == old(store.records)[f := old(store.Rec(f)).(flags := old(store.Rec(f)).flags | ChildrenCachedFlag)]
      ensures store.flagWrites == old(store.flagWrites) + 1
      ensures store.rootRecords == old(store.rootRecords) && store.contents == old(store.contents)
      ensures store.nextId == old(store.nextId)
      ensures AreChildrenLoaded(f)
    {
      store.UpdateList(f, ids);
      var flags := store.Rec(f).flags;
      store.SetFlags(f, flags | ChildrenCachedFlag);
      WithFlagAnswers(flags, ChildrenCachedFlag, true);
    }

    /** list: the persisted names when the children are cached, without asking the delegate; otherwise persistAllChildren. */
    method List(f: int, d: Delegate) returns (names: seq<string>)
      requires Valid() && f in handles
      modifies this, store
      ensures Valid()
      ensures old(AreChildrenLoaded(f)) ==>
        names == old(store.NamesOf(store.List(f))) && unchanged(store) && CacheKept()
      ensures !old(AreChildrenLoaded(f)) ==> PersistDone(f, d, names)
      ensures AreChildrenLoaded(f) && store.NamesOf(store.List(f)) == names
    {
      if AreChildrenLoaded(f) {
        names := ListPersisted(f);
      } else {
        names := PersistAllChildren(f, d);
      }
    }

    /** listIds: the stored child ids, after listing the directory if its children are not cached. */
    method ListIds(f: int, d: Delegate) returns (ids: seq<int>)
      requires Valid() && f in handles
      modifies this, store
      ensures Valid()
      ensures ids == store.List(f) && AreChildrenLoaded(f)
      ensures old(AreChildrenLoaded(f)) ==> unchanged(store) && CacheKept()
      ensures !old(AreChildrenLoaded(f)) ==> PersistDone(f, d, d.List(old(PathOf(f))))
    {
      if !AreChildrenLoaded(f) {
        var _ := List(f, d);
      }
      ids := store.List(f);
    }

    /**
     * getId: the first stored child whose name matches under the delegate's case sensitivity;
     * else, if the delegate has the file, a new record appended to the parent's list; else 0.
     */
    method GetId(parent: int, childName: string, d: Delegate) returns (child: int)
      requires Valid() && parent in handles
      modifies this, store
      ensures Valid()
      ensures var k := Lookup(old(store.NamesOf(store.List(parent))), childName, old(handles[parent].fs.caseSensitive));
        k >= 0 ==> child == old(store.List(parent))[k] && unchanged(store) && CacheKept()
      ensures var k := Lookup(old(store.NamesOf(store.List(parent))), childName, old(handles[parent].fs.caseSensitive));
        var p := ChildPath(parent, childName);
        k < 0 && d.Exists(p) ==>
          && child == old(store.nextId) && store.nextId == child + 1
          && store.records == old(store.records)[child := CopiedRecord(childName, parent, d.Attr(p))]
          && store.lists == old(store.lists)[parent := old(store.List(parent)) + [child]]
          && store.flagWrites == old(store.flagWrites) + 1
          && store.rootRecords == old(store.rootRecords) && store.contents == old(store.contents)
          && CacheKept()
      ensures var k := Lookup(old(store.NamesOf(store.List(parent))), childName, old(handles[parent].fs.caseSensitive));
        k < 0 && !d.Exists(ChildPath(parent, childName)) ==> child == 0 && unchanged(store) && CacheKept()
    {
      var caseSensitive := handles[parent].fs.caseSensitive;
      var children := store.List(parent);
      ghost var stored := store.NamesOf(children);
      for i := 0 to |children|
        invariant forall j :: 0 <= j < i ==> !NamesEqual(caseSensitive, childName, stored[j])
      {
        assert stored[i] == store.Rec(children[i]).name;
        if NamesEqual(caseSensitive, childName, store.Rec(children[i]).name) {
          child := children[i];
          assert Lookup(stored, childName, caseSensitive) == i;
          return;
        }
      }
      var p := ChildPath(parent, childName);
      if d.Exists(p) {
        child := store.CreateRecord();
        FreshRecordIsCopied(childName, caseSensitive);
        CopyRecordFromDelegate(child, parent, p, childName, caseSensitive, d);
        store.UpdateList(parent, children + [child]);
        return;
      }
      child := 0;
    }

    /** getLength: the stored length, or, while it is unknown (-1), the delegate's, which is then stored. */
    method GetLength(f: int, d: Delegate) returns (len: int)
      requires Valid() && f in handles
      modifies store
      ensures Valid()
      ensures old(store.Rec(f)).length == -1 ==>
        && len == d.Attr(PathOf(f)).length
        && store.records == old(store.records)[f := old(store.Rec(f)).(length := len)]
        && store.lists == old(store.lists) && store.rootRecords == old(store.rootRecords)
        && store.contents == old(store.contents) && store.nextId == old(store.nextId)
        && store.flagWrites == old(store.flagWrites)
      ensures old(store.Rec(f)).length != -1 ==> len == old(store.Rec(f)).length && unchanged(store)
    {
      len := store.Rec(f).length;
      if len == -1 {
        len := d.Attr(PathOf(f)).length;
        store.SetLength(f, len);
      }
    }

    /** setTimeStamp: the stored timestamp becomes `stamp`. */
    method SetTimeStamp(f: int, stamp: int)
      requires Valid() && f in handles
      modifies store
      ensures Valid()
      ensures store.records == old(store.records)[f := old(store.Rec(f)).(timestamp := stamp)]
      ensures store.lists == old(store.lists) && store.rootRecords == old(store.rootRecords)
      ensures store.contents == old(store.contents) && store.nextId == old(store.nextId)
      ensures store.flagWrites == old(store.flagWrites)
    {
      store.SetTimestamp(f, stamp);
    }

    /**
     * The reload path of getInputStream: clear the reload mark, read the delegate's bytes
     * (up to its length below the load threshold, all of them from it on) into the cached
     * content, store the length, and mark the content for reload again if the number of bytes
     * read differs from the length.
     */
    twostate predicate ReloadDone(f: int, d: Delegate, bytes: seq<bv8>)
      reads this, store
    {
      && f in old(handles)
      && store.lists == old(store.lists) && store.rootRecords == old(store.rootRecords)
      && store.nextId == old(store.nextId)
      && var a := d.Attr(old(PathOf(f)));
      var f0 := old(store.Rec(f)).flags;
      var f1 := WithFlag(f0, MustReloadContentFlag, false);
      var f2 := if |bytes| != a.length then WithFlag(f1, MustReloadContentFlag, true) else f1;
      && bytes == Reloaded(a.content, a.length)
      && store.contents == old(store.contents)[f := bytes]
      && store.Rec(f) == old(store.Rec(f)).(flags := f2, length := a.length)
      && OtherRecordsKept({f})
      && store.flagWrites == old(store.flagWrites) + (if f1 != f0 then 1 else 0) + (if f2 != f1 then 1 else 0)
    }

    /** The reload path of getInputStream, with the effect ReloadDone states. */
    method ReloadContent(f: int, d: Delegate) returns (bytes: seq<bv8>)
      requires Valid() && f in handles
      modifies store
      ensures Valid()
      ensures ReloadDone(f, d, bytes)
    {
      SetFlag(f, MustReloadContentFlag, false);
      var a := d.Attr(PathOf(f));
      var len := a.length;
      bytes := Reloaded(a.content, len);
      store.WriteContent(f, bytes);
      store.SetLength(f, len);
      if |bytes| != len {
        SetFlag(f, MustReloadContentFlag, true);
      }
    }

    /**
     * getInputStream, read to its end and closed: the cached content, limited to the stored
     * length, while it is there and not marked for reload, otherwise ReloadContent. Afterwards
     * the reload mark is set exactly when the bytes read differ from the delegate's length.
     */
    method GetInputStream(f: int, d: Delegate) returns (bytes: seq<bv8>)
      requires Valid() && f in handles
      modifies store
      ensures Valid()
      ensures old(f in store.contents && !CheckFlag(f, MustReloadContentFlag)) ==>
        bytes == Prefix(old(store.contents[f]), old(store.Rec(f)).length) && unchanged(store)
      ensures old(f !in store.contents || CheckFlag(f, MustReloadContentFlag)) ==>
        && ReloadDone(f, d, bytes)
        && bytes == Reloaded(d.Attr(PathOf(f)).content, d.Attr(PathOf(f)).length)
        && store.contents == old(store.contents)[f := bytes]
        && store.Rec(f).length == d.Attr(PathOf(f)).length
        && CheckFlag(f, MustReloadContentFlag) == (|bytes| != d.Attr(PathOf(f)).length)
    {
      if f !in store.contents || CheckFlag(f, MustReloadContentFlag) {
        ghost var f0 := store.Rec(f).flags;
        bytes := ReloadContent(f, d);
        WithFlagAnswers(f0, MustReloadContentFlag, false);
        WithFlagAnswers(WithFlag(f0, MustReloadContentFlag, false), MustReloadContentFlag, true);
      } else {
        bytes := Prefix(store.contents[f], store.Rec(f).length);
      }
    }

    /** Send `n` on the message bus. */
    method Publish(n: Notice)
      modifies this
      ensures published == old(published) + [n] && trace == old(trace) + [Published(n)]
      ensures handles == old(handles) && roots == old(roots) && diagnostics == old(diagnostics)
    {
      published := published + [n];
      trace := trace + [Published(n)];
    }

    /**
     * The effect of executeTouch(f, reload, stamp): the reload mark set if asked, length and
     * timestamp taken from the delegate, and the handle's modification stamp set.
     */
    twostate predicate TouchDone(f: int, reload: bool, stamp: int, d: Delegate)
      reads this, store
    {
      && f in old(handles)
      && var a := d.Attr(old(PathOf(f)));
      var f0 := old(store.Rec(f)).flags;
      var f1 := if reload then WithFlag(f0, MustReloadContentFlag, true) else f0;
      && store.Rec(f) == old(store.Rec(f)).(flags := f1, length := a.length, timestamp := a.timestamp)
      && OtherRecordsKept({f})
      && store.flagWrites == old(store.flagWrites) + (if f1 != f0 then 1 else 0)
      && store.lists == old(store.lists) && store.rootRecords == old(store.rootRecords)
      && store.contents == old(store.contents) && store.nextId == old(store.nextId)
      && handles == old(handles)[f := old(handles[f]).(stamp := stamp)]
      && roots == old(roots) && published == old(published) && diagnostics == old(diagnostics)
    }

    method ExecuteTouch(f: int, reload: bool, stamp: int, d: Delegate)
      requires Valid() && f in handles
      modifies this, store
      ensures Valid() && trace == old(trace)
      ensures TouchDone(f, reload, stamp, d)
    {
      if reload {
        SetFlag(f, MustReloadContentFlag, true);
      }
      var a := d.Attr(PathOf(f));
      store.SetLength(f, a.length);
      store.SetTimestamp(f, a.timestamp);
      handles := handles[f := handles[f].(stamp := stamp)];
    }

    /**
     * getOutputStream, written and closed: a ContentChange notice before, the written bytes
     * cached as the content, the touch, and the same notice after. `d` is the delegate once it
     * has received the bytes.
     */
    method GetOutputStream(f: int, modStamp: int, data: seq<bv8>, d: Delegate)
      requires Valid() && f in handles
      modifies this, store
      ensures Valid()
      ensures var e := ContentChange(f, old(handles[f].stamp), modStamp, false);
        && published == old(published) + [Before([e]), After([e])]
        && trace == old(trace) + [Published(Before([e])), Published(After([e]))]
      ensures store.contents == old(store.contents)[f := data]
      ensures var a := d.Attr(old(PathOf(f)));
        && store.Rec(f) == old(store.Rec(f)).(length := a.length, timestamp := a.timestamp)
        && OtherRecordsKept({f})
      ensures store.flagWrites == old(store.flagWrites)
      ensures store.lists == old(store.lists) && store.rootRecords == old(store.rootRecords)
      ensures store.nextId == old(store.nextId)
      ensures handles == old(handles)[f := old(handles[f]).(stamp := modStamp)]
      ensures roots == old(roots) && diagnostics == old(diagnostics)
    {
      var e := ContentChange(f, handles[f].stamp, modStamp, false);
      Publish(Before([e]));
      store.WriteContent(f, data);
      ExecuteTouch(f, false, modStamp, d);
      Publish(After([e]));
    }

    /**
     * findRoot: the root registered for `protocol://basePath`; otherwise the root record for that
     * URL (found or created), copied from the delegate and registered if the delegate has the
     * root, and None if it does not.
     */
    method FindRoot(basePath: string, fs: FileSystem, d: Delegate) returns (root: Option<int>)
      requires Valid()
      modifies this, store
      ensures Valid()
      ensures var url := RootUrl(fs.protocol, basePath);
        url in old(roots) ==> root == Some(old(roots)[url]) && unchanged(store) && CacheKept()
      ensures var url := RootUrl(fs.protocol, basePath);
        url !in old(roots) ==>
          && var id := if url in old(store.rootRecords) then old(store.rootRecords)[url] else old(store.nextId);
          && store.rootRecords == old(store.rootRecords)[url := id]
          && store.nextId == (if url in old(store.rootRecords) then old(store.nextId) else old(store.nextId) + 1)
          && store.lists == old(store.lists) && store.contents == old(store.contents)
          && published == old(published) && trace == old(trace) && diagnostics == old(diagnostics)
          && if !d.Exists(RootPath(fs, basePath)) then
               && root == None && handles == old(handles) && roots == old(roots)
               && store.records == (if url in old(store.rootRecords) then old(store.records) else old(store.records)[id := EmptyRecord])
               && store.flagWrites == old(store.flagWrites)
             else
               && root == Some(id)
               && roots == old(roots)[url := id]
               && handles == old(handles)[id := Handle(basePath, 0, fs, [], true, 0)]
               && var kept := KeepsRecord(old(store.Rec(id)), basePath, fs.caseSensitive);
               && store.Rec(id) == (if kept then old(store.Rec(id)) else CopiedRecord(basePath, 0, d.Attr(RootPath(fs, basePath))))
               && OtherRecordsKept({id})
               && store.flagWrites == old(store.flagWrites) + (if kept then 0 else 1)
    {
      var rootUrl := RootUrl(fs.protocol, basePath);
      if rootUrl in roots {
        return Some(roots[rootUrl]);
      }
      var rootId := store.FindRootRecord(rootUrl);
      var p := RootPath(fs, basePath);
      if !d.Exists(p) {
        return None;
      }
      CopyRecordFromDelegate(rootId, 0, p, basePath, fs.caseSensitive, d);
      handles := handles[rootId := Handle(basePath, 0, fs, [], true, 0)];
      roots := roots[rootUrl := rootId];
      root := Some(rootId);
    }

    /** `new ArrayList(myRoots.values())`: the registered roots, one per URL, in the map's iteration order. */
    method RootValues() returns (values: seq<int>)
      requires Valid()
      ensures |values| == |roots|
      ensures forall i :: 0 <= i < |values| ==> values[i] in roots.Values
      ensures forall u :: u in roots ==> roots[u] in values
    {
      var rest := roots.Keys;
      values := [];
      while rest != {}
        invariant rest <= roots.Keys
        invariant |values| + |rest| == |roots.Keys|
        invariant forall i :: 0 <= i < |values| ==> values[i] in roots.Values
        invariant forall u :: u in roots && u !in rest ==> roots[u] in values
        decreases |rest|
      {
        var u :| u in rest;
        values := values + [roots[u]];
        rest := rest - {u};
      }
      assert |roots.Keys| == |roots|;
    }

    /** getRoots: every registered root, ordered by the rank of its file system. */
    method GetRoots() returns (r: seq<int>)
      requires Valid()
      ensures SortedByRank(handles, r)
      ensures |r| == |roots|
      ensures forall i :: 0 <= i < |r| ==> r[i] in roots.Values
      ensures forall u :: u in roots ==> roots[u] in r
    {
      var values := RootValues();
      r := SortByRank(handles, values);
      forall i | 0 <= i < |r|
        ensures r[i] in values
      {
        assert r[i] in multiset(r);
      }
      forall u | u in roots
        ensures roots[u] in r
      {
        assert roots[u] in multiset(values);
      }
      assert |r| == |multiset(r)| == |multiset(values)| == |values|;
    }

    /** getRoots(fs): the registered roots whose file system is `fs`. */
    method GetRootsOf(fs: FileSystem) returns (r: seq<int>)
      requires Valid()
      ensures |r| == |MatchingUrls(roots, handles, roots.Keys, fs)|
      ensures forall i :: 0 <= i < |r| ==> r[i] in roots.Values && handles[r[i]].fs == fs
      ensures forall u :: u in roots && handles[roots[u]].fs == fs ==> roots[u] in r
    {
      var rest := roots.Keys;
      ghost var done: set<string> := {};
      r := [];
      while rest != {}
        invariant rest <= roots.Keys && done == roots.Keys - rest
        invariant |r| == |MatchingUrls(roots, handles, done, fs)|
        invariant forall i :: 0 <= i < |r| ==> r[i] in roots.Values && handles[r[i]].fs == fs
        invariant forall u :: u in roots && u !in rest && handles[roots[u]].fs == fs ==> roots[u] in r
        decreases |rest|
      {
        var u :| u in rest;
        MatchingUrlsStep(roots, handles, done, u, fs);
        if handles[roots[u]].fs == fs {
          r := r + [roots[u]];
        }
        rest := rest - {u};
        done := done + {u};
      }
      assert done == roots.Keys;
    }

    /** appendIdToParentList: `childId` goes to the end of the parent's stored list. */
    method AppendIdToParentList(parentId: int, childId: int)
      requires Valid() && 0 < parentId < store.nextId && 0 < childId < store.nextId
      modifies store
      ensures Valid()
      ensures store.lists == old(store.lists)[parentId := old(store.List(parentId)) + [childId]]
      ensures store.records == old(store.records) && store.rootRecords == old(store.rootRecords)
      ensures store.contents == old(store.contents) && store.nextId == old(store.nextId)
      ensures store.flagWrites == old(store.flagWrites)
    {
      var childrenList := store.List(parentId);
      childrenList := childrenList + [childId];
      store.UpdateList(parentId, childrenList);
    }

    /** removeIdFromParentList: the first occurrence of `id` leaves the parent's stored list. */
    method RemoveIdFromParentList(parentId: int, id: int)
      requires Valid() && 0 < parentId < store.nextId
      modifies store
      ensures Valid()
      ensures store.lists == old(store.lists)[parentId := Remove(old(store.List(parentId)), id)]
      ensures store.records == old(store.records) && store.rootRecords == old(store.rootRecords)
      ensures store.contents == old(store.contents) && store.nextId == old(store.nextId)
      ensures store.flagWrites == old(store.flagWrites)
    {
      var childList := store.List(parentId);
      childList := Remove(childList, id);
      store.UpdateList(parentId, childList);
    }

    /**
     * The effect of executeCreateChild(parent, name): nothing if the delegate does not have the
     * file; otherwise a new record copied from the delegate, appended to the parent's list, and
     * a new valid handle added to the parent's cached children.
     */
    twostate predicate CreateDone(parent: int, name: string, d: Delegate)
      reads this, store
    {
      && parent in old(handles)
      && store.rootRecords == old(store.rootRecords) && store.contents == old(store.contents)
      && roots == old(roots) && published == old(published) && diagnostics == old(diagnostics)
      && var p := ChildPath(parent, name);
      if !d.Exists(p) then
        && store.records == old(store.records) && store.lists == old(store.lists)
        && store.nextId == old(store.nextId) && store.flagWrites == old(store.flagWrites)
        && handles == old(handles)
      else
        var c := old(store.nextId);
        var h := old(handles[parent]);
        && store.nextId == c + 1
        && store.records == old(store.records)[c := CopiedRecord(name, parent, d.Attr(p))]
        && store.lists == old(store.lists)[parent := ListOf(old(store.lists), parent) + [c]]
        && store.flagWrites == old(store.flagWrites) + 1
        && handles == old(handles)[c := Handle(name, parent, h.fs, [], true, 0)][parent := h.(kids := h.kids + [c])]
    }

    method ExecuteCreateChild(parent: int, name: string, d: Delegate)
      requires Valid() && parent in handles
      modifies this, store
      ensures Valid() && trace == old(trace)
      ensures CreateDone(parent, name, d)
    {
      var caseSensitive := handles[parent].fs.caseSensitive;
      var p := ChildPath(parent, name);
      if d.Exists(p) {
        var childId := store.CreateRecord();
        FreshRecordIsCopied(name, caseSensitive);
        CopyRecordFromDelegate(childId, parent, p, name, caseSensitive, d);
        AppendIdToParentList(parent, childId);
        var h := handles[parent];
        handles := handles[childId := Handle(name, parent, h.fs, [], true, 0)][parent := h.(kids := h.kids + [childId])];
      }
    }

    /** executeCopy: the copy is created as a new child of the target directory. */
    method ExecuteCopy(from: int, newParent: int, copyName: string, d: Delegate)
      requires Valid() && newParent in handles
      modifies this, store
      ensures Valid() && trace == old(trace)
      ensures CreateDone(newParent, copyName, d)
    {
      ExecuteCreateChild(newParent, copyName, d);
    }

    /** invalidateSubtree: `f` and, recursively, its cached children become invalid. */
    method InvalidateSubtree(f: int)
      requires Valid() && f in handles
      modifies this
      ensures Valid()
      ensures handles == Invalidate(old(handles), f)
      ensures roots == old(roots) && published == old(published) && diagnostics == old(diagnostics)
      ensures trace == old(trace)
    {
      InvalidateMarksSubtree(handles, f);
      handles := Invalidate(handles, f);
    }

    /**
     * The effect of executeDelete(f): on an invalid handle only a diagnostic. Otherwise the
     * record and all its descendants leave the store; a child leaves its parent's list and
     * cached children, a root leaves the root registry and the root-record table; then the
     * subtree of handles is invalidated.
     */
    twostate predicate DeleteDone(f: int)
      reads this, store
    {
      && f in old(handles)
      && published == old(published)
      && store.nextId == old(store.nextId) && store.flagWrites == old(store.flagWrites)
      && if !old(handles[f].valid) then
           && diagnostics == old(diagnostics) + [DeleteMissing(f)]
           && handles == old(handles) && roots == old(roots)
           && store.records == old(store.records) && store.lists == old(store.lists)
           && store.contents == old(store.contents) && store.rootRecords == old(store.rootRecords)
         else
           var gone := Subtree(old(store.lists), f);
           var p := old(handles[f].parent);
           && diagnostics == old(diagnostics)
           && store.records == old(store.records) - gone
           && store.contents == old(store.contents) - gone
           && if p != 0 then
                var rest := old(store.lists) - gone;
                && p in old(handles)
                && store.lists == rest[p := Remove(ListOf(rest, p), f)]
                && store.rootRecords == old(store.rootRecords) && roots == old(roots)
                && handles == Invalidate(old(handles)[p := old(handles[p]).(kids := Remove(old(handles[p].kids), f))], f)
              else
                && store.lists == old(store.lists) - gone
                && store.rootRecords == (map u | u in old(store.rootRecords) && old(store.rootRecords)[u] != f :: old(store.rootRecords)[u])
                && roots == old(roots) - {RootUrl(old(handles[f].fs.protocol), old(handles[f].name))}
                && handles == Invalidate(old(handles), f)
    }

    method ExecuteDelete(f: int)
      requires Valid() && f in handles
      modifies this, store
      ensures Valid() && trace == old(trace)
      ensures DeleteDone(f)
    {
      if !handles[f].valid {
        diagnostics := diagnostics + [DeleteMissing(f)];
        return;
      }
      var parentId := handles[f].parent;
      store.DeleteRecordRecursively(f);
      if parentId != 0 {
        RemoveIdFromParentList(parentId, f);
        var h := handles[parentId];
        handles := handles[parentId := h.(kids := Remove(h.kids, f))];
      } else {
        roots := roots - {RootUrl(handles[f].fs.protocol, handles[f].name)};
        store.DeleteRootRecord(f);
      }
      InvalidateSubtree(f);
    }

    /** The effect of executeRename(f, newName): the handle and the record both take the new name. */
    twostate predicate RenameDone(f: int, newName: string)
      reads this, store
    {
      && f in old(handles)
      && handles == old(handles)[f := old(handles[f]).(name := newName)]
      && store.records == old(store.records)[f := old(store.Rec(f)).(name := newName)]
      && store.lists == old(store.lists) && store.rootRecords == old(store.rootRecords)
      && store.contents == old(store.contents) && store.nextId == old(store.nextId)
      && store.flagWrites == old(store.flagWrites)
      && roots == old(roots) && published == old(published) && diagnostics == old(diagnostics)
    }

    method ExecuteRename(f: int, newName: string)
      requires Valid() && f in handles
      modifies this, store
      ensures Valid() && trace == old(trace)
      ensures RenameDone(f, newName)
    {
      handles := handles[f := handles[f].(name := newName)];
      store.SetName(f, newName);
    }

    /** executeSetWritable: the read-only bit becomes the negation of `writable`. */
    method ExecuteSetWritable(f: int, writable: bool)
      requires Valid() && f in handles
      modifies this, store
      ensures Valid()
      ensures FlagDone(f, IsReadOnlyFlag, !writable) && trace == old(trace)
      ensures IsWritable(f) == writable
    {
      SetFlag(f, IsReadOnlyFlag, !writable);
      WithFlagAnswers(old(store.Rec(f)).flags, IsReadOnlyFlag, !writable);
    }

    /**
     * The effect of executeMove(what, newParent): `what` leaves its old parent's stored list and
     * is appended to the new parent's, and the handle's parent becomes `newParent`. The record's
     * own parent field is not rewritten. A root, which has no parent, is left as it is.
     */
    twostate predicate MoveDone(what: int, newParent: int)
      reads this, store
    {
      && what in old(handles)
      && store.records == old(store.records) && store.rootRecords == old(store.rootRecords)
      && store.contents == old(store.contents) && store.nextId == old(store.nextId)
      && store.flagWrites == old(store.flagWrites)
      && roots == old(roots) && published == old(published) && diagnostics == old(diagnostics)
      && var oldParent := old(handles[what].parent);
      if oldParent == 0 then
        store.lists == old(store.lists) && handles == old(handles)
      else
        var l1 := old(store.lists)[oldParent := Remove(ListOf(old(store.lists), oldParent), what)];
        && store.lists == l1[newParent := ListOf(l1, newParent) + [what]]
        && handles == old(handles)[what := old(handles[what]).(parent := newParent)]
    }

    method ExecuteMove(what: int, newParent: int)
      requires Valid() && what in handles && newParent in handles
      modifies this, store
      ensures Valid() && trace == old(trace)
      ensures MoveDone(what, newParent)
    {
      var oldParentId := handles[what].parent;
      if oldParentId == 0 {
        return;
      }
      RemoveIdFromParentList(oldParentId, what);
      AppendIdToParentList(newParent, what);
      handles := handles[what := handles[what].(parent := newParent)];
    }

    /** The effect of applyEvent(e): the handler the event's kind selects; other property changes do nothing. */
    twostate predicate EventDone(e: Event, d: Delegate)
      reads this, store
    {
      match e
      case Create(parent, childName, _) => CreateDone(parent, childName, d)
      case Delete(file) => DeleteDone(file)
      case ContentChange(file, _, newStamp, fromRefresh) => TouchDone(file, fromRefresh, newStamp, d)
      case Copy(_, newParent, newName) => CreateDone(newParent, newName, d)
      case Move(file, newParent) => MoveDone(file, newParent)
      case PropertyChange(file, property) =>
        match property
        case NameChange(_, newName) => RenameDone(file, newName)
        case WritableChange(_, writable) => FlagDone(file, IsReadOnlyFlag, !writable)
        case OtherChange(_) => unchanged(store) && CacheKept()
    }

    /** applyEvent(e): run the handler for `e`, recording the application in the trace. */
    method ApplyEvent(e: Event, d: Delegate)
      requires Valid() && Refs(e) <= handles.Keys
      modifies this, store
      ensures Valid() && trace == old(trace) + [Applied(e)]
      ensures old(handles).Keys <= handles.Keys
      ensures EventDone(e, d)
    {
      trace := trace + [Applied(e)];
      Dispatch(e, d);
    }

    /** The handler the kind of `e` selects. */
    method Dispatch(e: Event, d: Delegate)
      requires Valid() && Refs(e) <= handles.Keys
      modifies this, store
      ensures Valid() && trace == old(trace)
      ensures old(handles).Keys <= handles.Keys
      ensures EventDone(e, d)
    {
      match e {
        case Create(parent, childName, _) =>
          ExecuteCreateChild(parent, childName, d);
        case Delete(file) =>
          ExecuteDelete(file);
          InvalidateMarksSubtree(old(handles), file);
        case ContentChange(file, _, newStamp, fromRefresh) =>
          ExecuteTouch(file, fromRefresh, newStamp, d);
        case Copy(file, newParent, newName) =>
          ExecuteCopy(file, newParent, newName, d);
        case Move(file, newParent) =>
          ExecuteMove(file, newParent);
        case PropertyChange(file, property) =>
          match property {
            case NameChange(_, newName) =>
              ExecuteRename(file, newName);
            case WritableChange(_, writable) =>
              ExecuteSetWritable(file, writable);
            case OtherChange(_) =>
          }
      }
    }

    /** validateEvents: the events whose files are all still valid, in their order. */
    method ValidateEvents(events: seq<Event>) returns (filtered: seq<Event>)
      ensures filtered == ValidEvents(Live(), events)
    {
      filtered := [];
      for i := 0 to |events|
        invariant filtered == ValidEvents(Live(), events[..i])
      {
        assert events[..i + 1][..i] == events[..i];
        if IsValid(Live(), events[i]) {
          filtered := filtered + [events[i]];
        }
      }
      assert events[..|events|] == events;
    }

    /**
     * processEvents: the valid events go on the bus as "before", are applied one by one in
     * their order, and go on the bus as "after".
     */
    method ProcessEvents(events: seq<Event>, d: Delegate)
      requires Valid()
      modifies this, store
      ensures Valid()
      ensures var v := ValidEvents(old(Live()), events);
        && published == old(published) + [Before(v), After(v)]
        && trace == old(trace) + [Published(Before(v))] + AppliedSteps(v) + [Published(After(v))]
    {
      var v := ValidateEvents(events);
      Publish(Before(v));
      ghost var start := trace;
      for i := 0 to |v|
        invariant Valid()
        invariant forall e :: e in v ==> Refs(e) <= handles.Keys
        invariant published == old(published) + [Before(v)]
        invariant trace == start + AppliedSteps(v[..i])
      {
        assert AppliedSteps(v[..i + 1]) == AppliedSteps(v[..i]) + [Applied(v[i])];
        ApplyEvent(v[i], d);
      }
      assert v[..|v|] == v;
      Publish(After(v));
    }

    /**
     * Listing a directory twice: the second list answers from the store, whatever the delegate
     * (`later`) says by then, repeats the first answer and changes nothing.
     */
    method ListTwice(f: int, d: Delegate, later: Delegate) returns (first: seq<string>, second: seq<string>)
      requires Valid() && f in handles
      modifies this, store
      ensures Valid()
      ensures second == first
      ensures store.NamesOf(store.List(f)) == first
    {
      first := List(f, d);
      second := List(f, later);
    }

    /**
     * Reading a file twice: once a read has delivered the whole delegate length, or came from
     * an up-to-date cache, the second read repeats it from the cache, whatever the delegate
     * (`later`) holds by then.
     */
    method ReadTwice(f: int, d: Delegate, later: Delegate) returns (first: seq<bv8>, second: seq<bv8>)
      requires Valid() && f in handles
      modifies store
      ensures Valid()
      ensures |first| == d.Attr(PathOf(f)).length ==> second == first
    {
      var cached := f in store.contents && !CheckFlag(f, MustReloadContentFlag);
      first := GetInputStream(f, d);
      if !cached && |first| == d.Attr(PathOf(f)).length {
        CompleteReloadReadsBack(d.Attr(PathOf(f)).content, d.Attr(PathOf(f)).length);
      }
      second := GetInputStream(f, later);
    }

    /**
     * Writing a file and reading it back: when the delegate's length after the write is the
     * number of bytes written, the read returns the written bytes, from the cache when the
     * content was not marked for reload, and from the delegate when it was and the delegate
     * holds what was written.
     */
    method WriteThenRead(f: int, modStamp: int, data: seq<bv8>, d: Delegate) returns (back: seq<bv8>)
      requires Valid() && f in handles
      modifies this, store
      ensures Valid()
      ensures var a := d.Attr(old(PathOf(f)));
        a.length == |data| && (old(!CheckFlag(f, MustReloadContentFlag)) || a.content == data) ==> back == data
    {
      GetOutputStream(f, modStamp, data, d);
      assert PathOf(f) == old(PathOf(f));
      ExactContentReloads(data);
      back := GetInputStream(f, d);
    }
  }
}
