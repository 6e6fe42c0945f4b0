/**
 * The record store (FSRecords) the cache persists into: per-id records, ordered child-id lists,
 * the root-record table, the cached-content attribute and the id counter. It is an outside
 * collaborator; this class gives it the plain map semantics the cache relies on.
 */
module Records {
  import opened Reach

  /** The scalar fields of one file record; `length == -1` means "unknown, ask the delegate". */
  datatype Record = Record(name: string, parent: int, flags: bv32, length: int, timestamp: int, crc: int)

  /** What the store holds for an id it has created but never written (and for any unknown id). */
  const EmptyRecord := Record("", 0, 0, 0, 0, 0)

  /** The child-id list stored for `id`; an id without one has no children. */
  function ListOf(lists: map<int, seq<int>>, id: int): seq<int> {
    if id in lists then lists[id] else []
  }

  class RecordStore {
    var records: map<int, Record>
    /** The ordered child-id list of each record (`list` / `updateList`). */
    var lists: map<int, seq<int>>
    /** findRootRecord's table from root URL to record id. */
    var rootRecords: map<string, int>
    /** The cached-content attribute ("PersistentFS.File.Contents") of each record. */
    var contents: map<int, seq<bv8>>
    /** The next id createRecord hands out; ids are never reused. */
    var nextId: int
    /** How many times setFlags has been called: the part of the store's modification count the cache steers. */
    var flagWrites: nat

    /** Every id the store knows of was handed out by createRecord. */
    ghost predicate Valid()
      reads this
    {
      && 0 < nextId
      && (forall k :: k in records ==> 0 < k < nextId)
      && (forall k :: k in lists ==> 0 < k < nextId && forall c :: c in lists[k] ==> 0 < c < nextId)
      && (forall k :: k in contents ==> 0 < k < nextId)
      && (forall u :: u in rootRecords ==> 0 < rootRecords[u] < nextId)
    }

    constructor ()
      ensures Valid()
      ensures records == map[] && lists == map[] && rootRecords == map[] && contents == map[]
      ensures nextId == 1 && flagWrites == 0
    {
      records, lists, rootRecords, contents := map[], map[], map[], map[];
      nextId, flagWrites := 1, 0;
    }

    function Rec(id: int): Record
      reads this
    {
      if id in records then records[id] else EmptyRecord
    }

    /** myRecords.list(id). */
    function List(id: int): seq<int>
      reads this
    {
      ListOf(lists, id)
    }

    /** The stored names of `ids`, position by position. */
    function NamesOf(ids: seq<int>): (r: seq<string>)
      reads this
      ensures |r| == |ids|
    {
      seq(|ids|, i requires 0 <= i < |ids| reads this => Rec(ids[i]).name)
    }

    /** createRecord: a fresh, never used id whose record is empty and has no children or content. */
    method CreateRecord() returns (id: int)
      requires Valid()
      modifies this
      ensures Valid()
      ensures id == old(nextId) && nextId == id + 1
      ensures id !in old(records) && id !in lists && id !in contents
      ensures records == old(records)[id := EmptyRecord]
      ensures unchanged(this`lists, this`rootRecords, this`contents, this`flagWrites)
    {
      id := nextId;
      records := records[id := EmptyRecord];
      nextId := nextId + 1;
    }

    method SetFlags(id: int, flags: bv32)
      requires Valid() && 0 < id < nextId
      modifies this
      ensures Valid()
      ensures records == old(records)[id := old(Rec(id)).(flags := flags)]
      ensures flagWrites == old(flagWrites) + 1
      ensures unchanged(this`lists, this`rootRecords, this`contents, this`nextId)
    {
      records := records[id := Rec(id).(flags := flags)];
      flagWrites := flagWrites + 1;
    }

    method SetLength(id: int, length: int)
      requires Valid() && 0 < id < nextId
      modifies this
      ensures Valid()
      ensures records == old(records)[id := old(Rec(id)).(length := length)]
      ensures unchanged(this`lists, this`rootRecords, this`contents, this`nextId, this`flagWrites)
    {
      records := records[id := Rec(id).(length := length)];
    }

    method SetTimestamp(id: int, timestamp: int)
      requires Valid() && 0 < id < nextId
      modifies this
      ensures Valid()
      ensures records == old(records)[id := old(Rec(id)).(timestamp := timestamp)]
      ensures unchanged(this`lists, this`rootRecords, this`contents, this`nextId, this`flagWrites)
    {
      records := records[id := Rec(id).(timestamp := timestamp)];
    }

    method SetName(id: int, name: string)
      requires Valid() && 0 < id < nextId
      modifies this
      ensures Valid()
      ensures records == old(records)[id := old(Rec(id)).(name := name)]
      ensures unchanged(this`lists, this`rootRecords, this`contents, this`nextId, this`flagWrites)
    {
      records := records[id := Rec(id).(name := name)];
    }

    /**
     * The six writes of copyRecordFromDelegateFS (parent, name, CRC, timestamp, flags, length),
     * one of them a setFlags call.
     */
    method SetAll(id: int, r: Record)
      requires Valid() && 0 < id < nextId
      modifies this
      ensures Valid()
      ensures records == old(records)[id := r]
      ensures flagWrites == old(flagWrites) + 1
      ensures unchanged(this`lists, this`rootRecords, this`contents, this`nextId)
    {
      records := records[id := r];
      flagWrites := flagWrites + 1;
    }

    method UpdateList(id: int, ids: seq<int>)
      requires Valid() && 0 < id < nextId
      requires forall c :: c in ids ==> 0 < c < nextId
      modifies this
      ensures Valid()
      ensures lists == old(lists)[id := ids]
      ensures unchanged(this`records, this`rootRecords, this`contents, this`nextId, this`flagWrites)
    {
      lists := lists[id := ids];
    }

    /** findRootRecord: the id stored for `url`, or a fresh record registered under it. */
    method FindRootRecord(url: string) returns (id: int)
      requires Valid()
      modifies this
      ensures Valid()
      ensures url in old(rootRecords) ==> id == old(rootRecords)[url] && unchanged(this)
      ensures url !in old(rootRecords) ==>
        && id == old(nextId) && nextId == id + 1
        && records == old(records)[id := EmptyRecord]
        && rootRecords == old(rootRecords)[url := id]
        && unchanged(this`lists, this`contents, this`flagWrites)
      ensures 0 < id < nextId
    {
      if url in rootRecords {
        id := rootRecords[url];
      } else {
        id := CreateRecord();
        rootRecords := rootRecords[url := id];
      }
    }

    /** deleteRootRecord: forget every root URL registered for `id`. */
    method DeleteRootRecord(id: int)
      requires Valid()
      modifies this
      ensures Valid()
      ensures rootRecords == map u | u in old(rootRecords) && old(rootRecords)[u] != id :: old(rootRecords)[u]
      ensures unchanged(this`records, this`lists, this`contents, this`nextId, this`flagWrites)
    {
      rootRecords := map u | u in rootRecords && rootRecords[u] != id :: rootRecords[u];
    }

    /** deleteRecordRecursively: drop the record, its child lists and content, for it and every descendant. */
    method DeleteRecordRecursively(id: int)
      requires Valid()
      modifies this
      ensures Valid()
      ensures var gone := Subtree(old(lists), id);
        && id in gone
        && records == old(records) - gone
        && lists == old(lists) - gone
        && contents == old(contents) - gone
      ensures unchanged(this`rootRecords, this`nextId, this`flagWrites)
    {
      var gone := Subtree(lists, id);
      SubtreeIsLeastClosed(lists, id);
      records := records - gone;
      lists := lists - gone;
      contents := contents - gone;
    }

    /** Replace the cached-content attribute of `id`. */
    method WriteContent(id: int, bytes: seq<bv8>)
      requires Valid() && 0 < id < nextId
      modifies this
      ensures Valid()
      ensures contents == old(contents)[id := bytes]
      ensures unchanged(this`records, this`lists, this`rootRecords, this`nextId, this`flagWrites)
    {
      contents := contents[id := bytes];
    }
  }
}
