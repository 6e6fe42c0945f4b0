/** The file-system change events, their validity check and the notifications around a batch. */
module Events {

  /** The property a PropertyChange event carries; only name and writable are acted on. */
  datatype Property =
    | NameChange(oldName: string, newName: string)
    | WritableChange(oldWritable: bool, newWritable: bool)
    | OtherChange(propertyName: string)

  /** A change event; files are named by the ids of their in-memory handles. */
  datatype Event =
    | Create(parent: int, childName: string, isDirectory: bool)
    | Delete(file: int)
    | ContentChange(file: int, oldStamp: int, newStamp: int, fromRefresh: bool)
    | Copy(file: int, newParent: int, newName: string)
    | Move(file: int, newParent: int)
    | PropertyChange(file: int, property: Property)

  /** What the message bus carries: the batch before it is applied, and after. */
  datatype Notice = Before(batch: seq<Event>) | After(batch: seq<Event>)

  /** The handles an event refers to. */
  function Refs(e: Event): set<int> {
    match e
    case Create(parent, _, _) => {parent}
    case Delete(file) => {file}
    case ContentChange(file, _, _, _) => {file}
    case Copy(file, newParent, _) => {file, newParent}
    case Move(file, newParent) => {file, newParent}
    case PropertyChange(file, _) => {file}
  }

  /** event.isValid(): every handle the event refers to is still live. */
  predicate IsValid(live: set<int>, e: Event) {
    Refs(e) <= live
  }

  /** validateEvents: the valid events of the batch, in their original order. */
  function ValidEvents(live: set<int>, events: seq<Event>): (r: seq<Event>)
    ensures |r| <= |events|
    ensures forall e :: e in r <==> e in events && IsValid(live, e)
  {
    if events == [] then []
    else
      var init := events[..|events| - 1];
      var last := events[|events| - 1];
      assert events == init + [last];
      ValidEvents(live, init) + (if IsValid(live, last) then [last] else [])
  }

  /** Filtering keeps the order of the batch: it distributes over concatenation. */
  lemma {:induction false} ValidEventsConcat(live: set<int>, a: seq<Event>, b: seq<Event>)
    ensures ValidEvents(live, a + b) == ValidEvents(live, a) + ValidEvents(live, b)
  {
    if b == [] {
      assert a + b == a;
    } else {
      var init := b[..|b| - 1];
      var last := b[|b| - 1];
      assert (a + b)[..|a + b| - 1] == a + init;
      assert (a + b)[|a + b| - 1] == last;
      ValidEventsConcat(live, a, init);
    }
  }

  /** A batch of valid events passes unchanged. */
  lemma {:induction false} ValidEventsKeepsValid(live: set<int>, events: seq<Event>)
    requires forall e :: e in events ==> IsValid(live, e)
    ensures ValidEvents(live, events) == events
  {
    if events != [] {
      var init := events[..|events| - 1];
      assert events == init + [events[|events| - 1]];
      ValidEventsKeepsValid(live, init);
    }
  }
}
