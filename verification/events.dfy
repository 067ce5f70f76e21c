/**
  Event categories and the event record handed to every callback.

  An event category is a Go `uint16`; four categories are predefined, but the
  dispatcher accepts any value of the type as a key.
 */
module Events {

  /** `type EventType uint16` */
  newtype EventType = x: int | 0 <= x < 0x1_0000

  const UnknownEvent: EventType := 0
  const CommitEvent: EventType := 1
  const MessageEvent: EventType := 2
  const FileOpenedEvent: EventType := 3

  /** The display-name table, indexed by category (spelling as in the program). */
  const EventTypeNames: seq<string> :=
    ["unkown", "entryCommitted", "messageReceived", "fileOpened"]

  /** A category has a display name only if it indexes the name table;
      any other value makes the lookup go out of range. */
  predicate HasName(t: EventType) {
    (t as int) < |EventTypeNames|
  }

  /** The display name of a category. */
  function Name(t: EventType): (s: string)
    requires HasName(t)
    ensures t == UnknownEvent ==> s == "unkown"
    ensures t == CommitEvent ==> s == "entryCommitted"
    ensures t == MessageEvent ==> s == "messageReceived"
    ensures t == FileOpenedEvent ==> s == "fileOpened"
    ensures s != []
  {
    EventTypeNames[t]
  }

  /** Exactly the four predefined categories have a name. */
  lemma NamedCategories(t: EventType)
    ensures HasName(t) <==> t in {UnknownEvent, CommitEvent, MessageEvent, FileOpenedEvent}
  {
  }

  /** Distinct named categories have distinct names, so a name identifies its category. */
  lemma NameInjective(t: EventType, u: EventType)
    requires HasName(t) && HasName(u)
    ensures Name(t) == Name(u) <==> t == u
  {
  }

  /** The value passed to each callback: its category, the dispatcher's source and the payload. */
  datatype Event<S, V> = Event(etype: EventType, source: S, value: V) {
    function Type(): EventType { etype }
    function Source(): S { source }
    function Value(): V { value }
  }

  /** A callback's return value: `None` stands for a nil error. */
  datatype Option<T> = None | Some(value: T)
}
