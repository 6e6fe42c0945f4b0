# PersistentFS in Dafny

This project models the persistent cache of IntelliJ's virtual file system, the class
`PersistentFS`. The cache keeps a table of file records keyed by positive ids. Each record
holds a name, a parent id, a flag word (`CHILDREN_CACHED`, `IS_DIRECTORY`, `IS_READ_ONLY`,
`MUST_RELOAD_CONTENT`), a length where -1 means "unknown", a timestamp, a CRC, an ordered
list of child ids and a cached-content attribute. The cache keeps this table in step with the
delegate file systems (local disk, archives, ...). It registers roots under
`protocol://basePath`. It applies change events to the store and to the in-memory file handles,
announcing each batch on the message bus before and after.

Modules:

- `Flags`: the flag constants, the bit test and the read-modify-write of `setFlag`.
- `Names`: `namesEqual`, which is case-sensitive or case-folded, and the first-match scan of `getId`.
- `Seqs`: `ArrayUtil.indexOf`, remove-at-index-of, and an order-keeping reference definition of removal.
- `Reach`: the subtree over child lists that `deleteRecordRecursively` and `invalidateSubtree` cover.
- `DelegateFs`: the delegate file systems as one value: attributes and listings by path.
- `Events`: the change events, their validity and the `validateEvents` filter.
- `Reconcile`: the child-id list that `persistAllChildren` computes.
- `Records`: the record store (`FSRecords`) as a class over maps.
- `Entries`: the in-memory handles (name, parent, file system, cached children, validity,
  modification stamp), invalidation, and the rank order of `getRoots`.
- `Copying`: what `copyRecordFromDelegateFS` writes.
- `Content`: the bytes `getInputStream` delivers and caches, with the 1 MiB load threshold.
- `PersistentFs`: the class `PersistentFS`, with one method per operation of the source.

The delegate file systems change only outside the cache, so every operation that queries them
takes their current state as a parameter `d`. A file is addressed on the delegate by its root
(file system and base path), or by its parent's id and its own name, as a `FakeVirtualFile` is.
The message bus is the append-only list `published`. The logger is the list `diagnostics`.
A ghost `trace` records notices and applied events in the order they happen.

The bit tests `areChildrenLoaded`, `isDirectory`, `isWritable` and `checkFlag` are the
predicates `AreChildrenLoaded`, `IsDirectory`, `IsWritable` and `CheckFlag` of the class. The
contracts and lemmas below state what they answer after each operation.

## Model

| member | source | states |
|---|---|---|
| Flags.WithFlagBits | source/com/intellij/openapi/vfs/newvfs/persistent/PersistentFS.java:607-616 | setFlag keeps every bit outside the mask and sets or clears the mask bits according to the value |
| Flags.WithFlagIdempotent | source/com/intellij/openapi/vfs/newvfs/persistent/PersistentFS.java:607-616 | applying setFlag twice with the same mask and value gives the same flags as applying it once |
| Flags.WithFlagAnswers | source/com/intellij/openapi/vfs/newvfs/persistent/PersistentFS.java:607-620 | after setFlag(mask, v) on a non-empty mask, checkFlag(mask) answers v |
| Flags.WithFlagKeepsOthers | source/com/intellij/openapi/vfs/newvfs/persistent/PersistentFS.java:607-620 | setFlag does not change the answer of checkFlag on a disjoint mask |
| Flags.WithFlagChanges | source/com/intellij/openapi/vfs/newvfs/persistent/PersistentFS.java:610-615 | for each single-bit flag, the new flag word differs from the old one exactly when the bit differs from the value, so setFlags is called exactly then |
| Flags.WithFlag | source/com/intellij/openapi/vfs/newvfs/persistent/PersistentFS.java:611 | the flag word setFlag computes; its meaning is stated by WithFlagBits, WithFlagAnswers, WithFlagKeepsOthers and WithFlagIdempotent |
| Flags.Has | source/com/intellij/openapi/vfs/newvfs/persistent/PersistentFS.java:618-620 | the bit test of checkFlag; WithFlagAnswers and WithFlagKeepsOthers state its answers after setFlag |
| Names.EmptyMatchesOnlyEmpty | source/com/intellij/openapi/vfs/newvfs/persistent/PersistentFS.java:168 | under either case rule, a non-empty name never equals the empty stored name of a fresh record |
| Names.NamesEqual | source/com/intellij/openapi/vfs/newvfs/persistent/PersistentFS.java:195-197 | equals on a case-sensitive file system, ASCII case-folded equality otherwise; EmptyMatchesOnlyEmpty and LookupIgnoresCase state its consequences |
| Names.Lookup | source/com/intellij/openapi/vfs/newvfs/persistent/PersistentFS.java:238-245 | the scan of getId finds the first stored child whose name equals the wanted one under namesEqual, or reports that none does |
| Names.LookupIgnoresCase | source/com/intellij/openapi/vfs/newvfs/persistent/PersistentFS.java:195-197 | on a case-insensitive file system, two names differing only in letter case find the same child |
| Seqs.IndexOf | source/com/intellij/openapi/vfs/newvfs/persistent/PersistentFS.java:108 | ArrayUtil.indexOf returns the first position of the value, or -1 exactly when it is absent |
| Seqs.Remove | source/com/intellij/openapi/vfs/newvfs/persistent/PersistentFS.java:591-595 | removing at the index of an id drops one occurrence and nothing else (as a multiset), and an absent id leaves the list as it is |
| Seqs.RemoveKeepsOrder | source/com/intellij/openapi/vfs/newvfs/persistent/PersistentFS.java:591-595 | in a list that holds the id at most once, removal equals erasing it with every other id kept in its order |
| Seqs.AppendKeepsOrder | source/com/intellij/openapi/vfs/newvfs/persistent/PersistentFS.java:545-549 | appending an id leaves the other ids and their order as they were |
| Reach.SubtreeIsLeastClosed | source/com/intellij/openapi/vfs/newvfs/persistent/PersistentFS.java:583-589 | the subtree of an id holds the id, holds the children of each member, and is contained in every set that does both |
| DelegateFs.RootUrl | source/com/intellij/openapi/vfs/newvfs/persistent/PersistentFS.java:435 | the URL a root is registered under, the protocol, "://" and the base path; FindRoot and ExecuteDelete are stated in its terms |
| Events.ValidEvents | source/com/intellij/openapi/vfs/newvfs/persistent/PersistentFS.java:410-419 | validateEvents keeps an event exactly when all its files are valid |
| Events.ValidEventsConcat | source/com/intellij/openapi/vfs/newvfs/persistent/PersistentFS.java:410-419 | the filter keeps the batch's order, because it distributes over concatenation |
| Events.ValidEventsKeepsValid | source/com/intellij/openapi/vfs/newvfs/persistent/PersistentFS.java:410-419 | a batch of valid events passes unchanged |
| Events.IsValid | source/com/intellij/openapi/vfs/newvfs/persistent/PersistentFS.java:413 | an event is valid when every handle it names is still valid; ValidEvents is stated in its terms |
| Reconcile.Reconciled | source/com/intellij/openapi/vfs/newvfs/persistent/PersistentFS.java:104-119 | the new child list has one entry per delegate name |
| Reconcile.ReconciledIds | source/com/intellij/openapi/vfs/newvfs/persistent/PersistentFS.java:106-117 | a name found among the persisted names by exact indexOf keeps that child's id; every other name gets a fresh id from the next record id on; no two new names share an id |
| Reconcile.ReconciledInRange | source/com/intellij/openapi/vfs/newvfs/persistent/PersistentFS.java:106-119 | every id of the new child list is a record id: a persisted child's id or one of the records created from the next id on, so updateList gets only existing ids |
| Entries.InvalidateMarksSubtree | source/com/intellij/openapi/vfs/newvfs/persistent/PersistentFS.java:583-589 | invalidation clears the valid bit of the file and of each cached child of every handle it clears, changes nothing else, and touches nothing outside the least such set |
| Entries.Invalidate | source/com/intellij/openapi/vfs/newvfs/persistent/PersistentFS.java:583-589 | the handle map after invalidateSubtree; InvalidateMarksSubtree states what it changes |
| Entries.InsertByRank | source/com/intellij/openapi/vfs/newvfs/persistent/PersistentFS.java:465-477 | inserting a root into a rank-ordered list keeps it ordered, adds exactly that root, and brings in nothing else |
| Entries.SortByRank | source/com/intellij/openapi/vfs/newvfs/persistent/PersistentFS.java:465-477 | the roots come out ordered by the rank of their file systems, as a permutation of the input |
| Copying.DelegateFlags | source/com/intellij/openapi/vfs/newvfs/persistent/PersistentFS.java:179 | the copied flag word has the directory bit iff the delegate reports a directory and the read-only bit iff the file is not writable, and no other bit |
| Copying.CopiedRecord | source/com/intellij/openapi/vfs/newvfs/persistent/PersistentFS.java:174-181 | the record written by copyRecordFromDelegateFS: the given name and parent, the delegate's CRC and timestamp, DelegateFlags, and length -1; its properties are stated by DelegateFlags and CreatedRecordAt |
| Copying.KeepsRecord | source/com/intellij/openapi/vfs/newvfs/persistent/PersistentFS.java:168-172 | the two early returns of copyRecordFromDelegateFS; FreshRecordIsCopied and CopyRecordFromDelegate state what follows from it |
| Copying.FreshRecordIsCopied | source/com/intellij/openapi/vfs/newvfs/persistent/PersistentFS.java:161-172 | a freshly created record is never left alone by copyRecordFromDelegateFS, whatever the name |
| Content.Prefix | source/com/intellij/openapi/vfs/newvfs/persistent/PersistentFS.java:345-351 | a read limited to n bytes delivers a prefix of the content, of length n, or the whole content when that is shorter |
| Content.CompleteReloadReadsBack | source/com/intellij/openapi/vfs/newvfs/persistent/PersistentFS.java:326-351 | content cached by a reload that read exactly the delegate's length reads back, limited to that length, as the same bytes |
| Content.Reloaded | source/com/intellij/openapi/vfs/newvfs/persistent/PersistentFS.java:322-344 | the reload path delivers, and caches, a prefix of the delegate's bytes: at most the length below 1 MiB, nothing for a negative length, every byte from 1 MiB on; a read shorter than the length has taken all the delegate's bytes |
| Content.ExactContentReloads | source/com/intellij/openapi/vfs/newvfs/persistent/PersistentFS.java:322-344 | a delegate holding exactly its reported length is reloaded whole, below and above the threshold |
| PersistentFs.MoveListsKeepOrder | source/com/intellij/openapi/vfs/newvfs/persistent/PersistentFS.java:638-647 | after executeMove the id is last in the new parent's list and gone from the old one, and both lists otherwise keep their entries in their relative order; other lists are untouched |
| PersistentFs.CreatedRecordsRange | source/com/intellij/openapi/vfs/newvfs/persistent/PersistentFS.java:111-116 | persistAllChildren creates records only at ids from the next record id on, one per new name |
| PersistentFs.CreatedRecordAt | source/com/intellij/openapi/vfs/newvfs/persistent/PersistentFS.java:111-116 | the record created for each new name is the delegate's copy of that name under the listed directory |
| PersistentFs.ReconciledNames | source/com/intellij/openapi/vfs/newvfs/persistent/PersistentFS.java:97-124 | after persistAllChildren, the stored names of the new child list are the delegate's names, in order |
| PersistentFs.DroppedChildKeepsRecord | source/com/intellij/openapi/vfs/newvfs/persistent/PersistentFS.java:106-119 | a persisted child whose name the delegate no longer lists drops out of the parent's new list, while its record stays in the store unchanged |
| PersistentFs.PersistentFS.constructor | source/com/intellij/openapi/vfs/newvfs/persistent/PersistentFS.java:45-48 | the cache starts with an empty store, no roots, no handles and nothing published |
| PersistentFs.PersistentFS.SetFlag | source/com/intellij/openapi/vfs/newvfs/persistent/PersistentFS.java:607-616 | the flag word becomes the setFlag value; setFlags is called, and the store's write count advances, only when the value changes; nothing else changes |
| PersistentFs.PersistentFS.ListPersisted | source/com/intellij/openapi/vfs/newvfs/persistent/PersistentFS.java:87-95 | the result holds the stored name of each stored child id, position by position, and nothing changes |
| PersistentFs.PersistentFS.CheckFlag | source/com/intellij/openapi/vfs/newvfs/persistent/PersistentFS.java:618-620 | the checkFlag test on a file's stored flags; SetFlag, ExecuteSetWritable and GetInputStream state its answers |
| PersistentFs.PersistentFS.AreChildrenLoaded | source/com/intellij/openapi/vfs/newvfs/persistent/PersistentFS.java:137-140 | the CHILDREN_CACHED test; List, ListIds and PersistAllChildren state that it holds afterwards |
| PersistentFs.PersistentFS.IsDirectory | source/com/intellij/openapi/vfs/newvfs/persistent/PersistentFS.java:191-193 | the IS_DIRECTORY test; DelegateFlags states that it answers the delegate's isDirectory after a copy |
| PersistentFs.PersistentFS.IsWritable | source/com/intellij/openapi/vfs/newvfs/persistent/PersistentFS.java:221-225 | the negated IS_READ_ONLY test; ExecuteSetWritable states that it answers the new value |
| PersistentFs.PersistentFS.CopyRecordFromDelegate | source/com/intellij/openapi/vfs/newvfs/persistent/PersistentFS.java:160-184 | when the id is its own parent, the only effect is a cyclic-parent diagnostic; a matching non-empty name, or an empty name with cached children, leaves the record alone; otherwise the record is rewritten with the parent, the name, the delegate's CRC, timestamp and flags, and length -1 |
| PersistentFs.PersistentFS.ChildIdFor | source/com/intellij/openapi/vfs/newvfs/persistent/PersistentFS.java:106-116 | one position of persistAllChildren: a persisted name gives its stored id; a new name creates the next record and copies it from the delegate |
| PersistentFs.PersistentFS.ReconcileChildren | source/com/intellij/openapi/vfs/newvfs/persistent/PersistentFS.java:104-117 | the loop gives exactly the reconciled id list, creates one record per new name (each the delegate's copy), and leaves child lists, root records and contents alone |
| PersistentFs.PersistentFS.PersistAllChildren | source/com/intellij/openapi/vfs/newvfs/persistent/PersistentFS.java:97-124 | the parent's list becomes the reconciled list; the created records are added; CHILDREN_CACHED is set with the other bits kept; the names returned are the delegate's listing, and they are also the stored names of the new list |
| PersistentFs.PersistentFS.StoreChildList | source/com/intellij/openapi/vfs/newvfs/persistent/PersistentFS.java:119-121 | the parent's stored list becomes the new list, CHILDREN_CACHED is set with the other bits kept, setFlags is called once, and the children then count as loaded |
| PersistentFs.PersistentFS.List | source/com/intellij/openapi/vfs/newvfs/persistent/PersistentFS.java:77-85 | with children cached, the result is the persisted listing and the store is unchanged, whatever the delegate says; otherwise it is persistAllChildren; afterwards the children are cached and the stored names equal the result |
| PersistentFs.PersistentFS.ListIds | source/com/intellij/openapi/vfs/newvfs/persistent/PersistentFS.java:126-134 | the result is the stored child-id list, which is populated first if the children were not cached |
| PersistentFs.PersistentFS.GetId | source/com/intellij/openapi/vfs/newvfs/persistent/PersistentFS.java:238-256 | the first stored child whose name matches under the delegate's case rule is returned with nothing changed; otherwise, if the delegate has the file, a new record copied from it is appended to the end of the parent's list and returned; otherwise 0 is returned and nothing changes |
| PersistentFs.PersistentFS.GetLength | source/com/intellij/openapi/vfs/newvfs/persistent/PersistentFS.java:258-268 | a stored length of -1 is replaced by the delegate's length, which is returned; any other stored length is returned without a change |
| PersistentFs.PersistentFS.SetTimeStamp | source/com/intellij/openapi/vfs/newvfs/persistent/PersistentFS.java:208-213 | the stored timestamp becomes the given one and nothing else in the store changes |
| PersistentFs.PersistentFS.ReloadContent | source/com/intellij/openapi/vfs/newvfs/persistent/PersistentFS.java:315-344 | ReloadDone: the reload mark is cleared; the delegate's bytes as Reloaded delivers them become the cached content; the length is stored; the mark is set again when the number of bytes read differs from the length; the other records, the lists and the root records are kept |
| PersistentFs.PersistentFS.GetInputStream | source/com/intellij/openapi/vfs/newvfs/persistent/PersistentFS.java:313-359 | up-to-date cached content is read limited to the stored length with nothing changed; otherwise the whole effect is ReloadDone: the delegate's content as Reloaded delivers it is cached, the length stored, the other records and the lists kept, and the reload mark set exactly when the bytes read differ from the length |
| PersistentFs.PersistentFS.Publish | source/com/intellij/openapi/vfs/newvfs/persistent/PersistentFS.java:424-428 | a notice is appended to the bus |
| PersistentFs.PersistentFS.ExecuteTouch | source/com/intellij/openapi/vfs/newvfs/persistent/PersistentFS.java:622-632 | the reload mark is set if the change came from a refresh; the stored length and timestamp are the delegate's; the handle takes the new modification stamp |
| PersistentFs.PersistentFS.GetOutputStream | source/com/intellij/openapi/vfs/newvfs/persistent/PersistentFS.java:361-399 | a ContentChange notice goes out before; the written bytes become the cached content; the touch happens; the same notice goes out after |
| PersistentFs.PersistentFS.FindRoot | source/com/intellij/openapi/vfs/newvfs/persistent/PersistentFS.java:433-454 | a registered URL returns its root with nothing changed; otherwise the root record is found or created for the URL; the root is registered, and its record copied from the delegate, only if the delegate has it; otherwise the result is none |
| PersistentFs.PersistentFS.RootValues | source/com/intellij/openapi/vfs/newvfs/persistent/PersistentFS.java:466 | one entry per registered URL, each a registered root, covering every registered root |
| PersistentFs.PersistentFS.GetRoots | source/com/intellij/openapi/vfs/newvfs/persistent/PersistentFS.java:465-477 | every registered root, one per URL, ordered by file-system rank |
| PersistentFs.PersistentFS.GetRootsOf | source/com/intellij/openapi/vfs/newvfs/persistent/PersistentFS.java:479-490 | exactly the registered roots whose file system is the given one, one entry per registered URL that matches |
| PersistentFs.PersistentFS.AppendIdToParentList | source/com/intellij/openapi/vfs/newvfs/persistent/PersistentFS.java:545-549 | the parent's stored list gets the id appended and nothing else in the store changes |
| PersistentFs.PersistentFS.RemoveIdFromParentList | source/com/intellij/openapi/vfs/newvfs/persistent/PersistentFS.java:591-595 | the first occurrence of the id leaves the parent's stored list and nothing else in the store changes |
| PersistentFs.PersistentFS.ExecuteCreateChild | source/com/intellij/openapi/vfs/newvfs/persistent/PersistentFS.java:531-543 | if the delegate has the file, a new record copied from it is appended to the parent's list, and a new valid handle joins the parent's cached children; otherwise nothing changes |
| PersistentFs.PersistentFS.ExecuteCopy | source/com/intellij/openapi/vfs/newvfs/persistent/PersistentFS.java:634-636 | a copy is a creation of the new name under the target directory |
| PersistentFs.PersistentFS.InvalidateSubtree | source/com/intellij/openapi/vfs/newvfs/persistent/PersistentFS.java:583-589 | the handles become the invalidation of the file's subtree of cached children |
| PersistentFs.PersistentFS.ExecuteDelete | source/com/intellij/openapi/vfs/newvfs/persistent/PersistentFS.java:551-581 | an invalid file only gets a diagnostic; otherwise its record subtree leaves the store and a child leaves its parent's list and cached children; a root leaves the registry and the root-record table; the file's handle subtree is invalidated |
| PersistentFs.PersistentFS.ExecuteRename | source/com/intellij/openapi/vfs/newvfs/persistent/PersistentFS.java:597-601 | the handle and the record both take the new name |
| PersistentFs.PersistentFS.ExecuteSetWritable | source/com/intellij/openapi/vfs/newvfs/persistent/PersistentFS.java:603-605 | the read-only bit becomes the negation of the flag, through setFlag, so isWritable then answers the flag |
| PersistentFs.PersistentFS.ExecuteMove | source/com/intellij/openapi/vfs/newvfs/persistent/PersistentFS.java:638-647 | the id leaves the old parent's list and is appended to the new parent's; the handle's parent becomes the new parent; the record itself is not rewritten |
| PersistentFs.PersistentFS.ApplyEvent | source/com/intellij/openapi/vfs/newvfs/persistent/PersistentFS.java:492-524 | each kind of event has exactly the effect of its handler; a property change other than name or writable does nothing; the call appends exactly one Applied step for the event to the trace |
| PersistentFs.PersistentFS.Dispatch | source/com/intellij/openapi/vfs/newvfs/persistent/PersistentFS.java:492-524 | the handler selected by the event's kind has exactly its effect, and the trace is untouched |
| PersistentFs.PersistentFS.ValidateEvents | source/com/intellij/openapi/vfs/newvfs/persistent/PersistentFS.java:410-419 | the loop returns exactly the filtered batch |
| PersistentFs.PersistentFS.ProcessEvents | source/com/intellij/openapi/vfs/newvfs/persistent/PersistentFS.java:421-429 | the filtered batch is published before and after; in between, the ghost trace holds one Applied step per event of the batch, in the batch's order, as the ApplyEvent calls record them; the state after the batch is not stated |
| PersistentFs.PersistentFS.ListTwice | source/com/intellij/openapi/vfs/newvfs/persistent/PersistentFS.java:77-95 | a second list repeats the first answer, whatever the delegate says by then |
| PersistentFs.PersistentFS.ReadTwice | source/com/intellij/openapi/vfs/newvfs/persistent/PersistentFS.java:313-359 | after a complete read, a second read returns the same bytes from the cache, whatever the delegate holds by then |
| PersistentFs.PersistentFS.WriteThenRead | source/com/intellij/openapi/vfs/newvfs/persistent/PersistentFS.java:313-399 | bytes written through getOutputStream read back unchanged when the delegate's length is their count, from the cache, or from the delegate after a reload mark when it holds them |

## Left out

- The record store `FSRecords` and the delegate `NewVirtualFileSystem` are not part of this model. The store is a class with plain map semantics; the delegate is a value passed to each operation.
- `getFileId`: the model requires only that the file has a handle (`f in handles`). `Valid` keeps handle ids positive. Its `assert id > 0` also fails for an invalidated handle, and the handlers that call it do not require the handle to be valid; see the next line on events.
- Events on files invalidated earlier in the same batch: `validateEvents` checks every event before any is applied. A Delete can therefore invalidate a file or directory that a later event of the batch names. Examples are a ContentChange, Move, rename or writable change of that file, or a Move into a deleted directory. In the source the later handler stops at the assertion in `getFileId`, when assertions are enabled, and `processEvents` ends before the "after" notice. The model applies such an event to the invalidated handle and its record id, and carries on.
- The public entry points `createChildFile`, `createChildDirectory`, `deleteFile`, `renameFile`, `moveFile`, `copyFile` and `setWritable`: each is a call into the delegate followed by `processEvent` of one event, which is `ProcessEvents` of a one-event batch. The delegate call is outside the model.
- `copyFile`, `createChildDirectory` and `createChildFile` then look the new child up with `findChild` and throw an IOException when it is missing. `findChild` belongs to the handle classes, which are not part of this model, so that final lookup and its exception are not modelled.
- `refresh`: it hands the roots to `RefreshQueue`, which is outside the model.
- `readAttribute`, `writeAttribute`, `getModificationCount`, `getFilesystemModificationCount`, `getTimeStamp`, `getCRC` and `getName`: plain reads and writes of the store.
- `exists`: it tests the handle's own id for being positive. A handle whose id no longer tests positive, an invalidated one, is modelled as a handle with `valid == false`. The handle keeps its record id as its map key.
- The store's modification count appears only as the number of `setFlags` calls.
- `initComponent` and `disposeComponent`: component lifecycle. The wrapping of IOException in RuntimeException is also left out.
- The `synchronized (LOCK)` blocks: the model is single-threaded.
- Streams are modelled on byte sequences:
  - A read runs to its end and is closed.
  - A write delivers all its bytes, including any BOM, and is closed.
  - The 1 MiB threshold is modelled by `Content.Reloaded`. Below it, a reload reads at most the length. From it on, the replicating stream passes and caches every delegate byte. When the stream is handed out rather than loaded at once is not modelled.
  - The bytes sent to the delegate's output stream are not modelled: `GetOutputStream` takes the delegate state after the write.
- SetTimeStamp: it does not model the delegate's `setTimeStamp` call; the delegate is a parameter.
- The `(int)` casts of delegate lengths: lengths are unbounded integers, so overflow is not modelled. A negative length makes a read deliver nothing.
- NamesEqual: `equalsIgnoreCase` is modelled with ASCII case folding only.
- RemoveIdFromParentList: an id missing from the list leaves the list as it is. In the source `ArrayUtil.remove` at index -1 throws. That ends `processEvents` before the "after" notice. The model carries on and always publishes "after". This case is reachable: a reconciliation can drop an id that still has a handle, and a Delete or Move of that file can follow.
- ExecuteMove: a file without a parent (a root) is left as it is. The source fails with a null dereference there, which also ends `processEvents` before the "after" notice. ProcessEvents in the model always publishes "after".
- ExecuteMove: `VirtualFileSystemEntry.setParent` is modelled as changing the handle's parent only. Its effect on the parents' cached children is not part of this model.
- ExecuteCreateChild: `VirtualDirectoryImpl.addChild` is modelled as appending to the cached children. New handles start with modification stamp 0.
- ExecuteDelete: the "file exists" test is the handle's valid bit, as under `exists` above. The URL of a root is `protocol://` followed by its name.
- Events.IsValid: the event classes are not part of this model. An event counts as valid when every handle it names (the file, and the parent or target directory) is valid.
- ProcessEvents: its contract fixes the notices, and the sequence of `Applied` steps in the ghost trace, which `ApplyEvent` appends one per call. The order of application is therefore the order the trace records for `ApplyEvent` calls. The contract does not state the store and handles after the whole batch, so a body that changed the state by other means and wrote the trace itself would also meet it. The effect of each single event is `ApplyEvent`'s contract.
- Handles for children that `List` or `GetId` find in the store are not created. In the source the handle classes create them, and those classes are not part of this model. Only `FindRoot` and `ExecuteCreateChild` add handles.
- GetRootsOf: the source compares file systems by object identity. The model compares them by value (protocol, rank and case rule).
- SortByRank: the comparator subtracts two `int` ranks, which can overflow in the source. The model's ranks are unbounded, so that overflow is not modelled.
- Content.Prefix: `FileUtil.loadBytes` is not part of this model. It is taken to return the first n bytes of the stream, or the whole stream when that is shorter.
- RootValues, GetRoots, GetRootsOf: "one entry per URL" gives the multiset of `myRoots.values()` only when no two URLs share a root id. The store hands out a fresh root record per URL, but `Valid` does not carry that injectivity, so these contracts do not rule out, for two URLs on one id, a result that repeats a different root.
- SortByRank: `Collections.sort` is stable. That is not proved, because the order it starts from is the hash map's iteration order, which is itself unspecified.
- FindRoot: a URL already registered in the root-record table reuses that record id. The handle is keyed by record id, so two in-memory objects for one id are one handle here.
