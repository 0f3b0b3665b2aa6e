/** The local-storage CRUD layer: `getEvents`, `saveEvents`, `addEvent`, `updateEvent`, `deleteEvent`.
    The storage key holds one serialised list; JSON text is abstracted to the list itself. */
module Store {
  import opened Events

  /** What reading the storage key yields: nothing stored, something that cannot be read
      (storage unavailable, an empty string, text that does not parse), or a stored list. */
  datatype Slot = Absent | Unreadable | Stored(events: seq<Event>)

  class EventStore {
    var slot: Slot

    constructor (initial: Slot)
      ensures slot == initial
    {
      slot := initial;
    }

    /** The list every operation starts from: the stored one, or empty when there is none. */
    function Events(): seq<Event>
      reads this
    {
      if slot.Stored? then slot.events else []
    }

    /** `getEvents()`: fails soft, never reports an error. */
    method GetEvents() returns (events: seq<Event>)
      ensures slot.Stored? ==> events == slot.events
      ensures !slot.Stored? ==> events == []
    {
      match slot
      case Stored(es) => events := es;
      case _ => events := [];
    }

    /** `saveEvents(events)`: a best-effort write; `writeOk` is the host's answer (false when the
        quota is exceeded or storage is unavailable), and a failed write leaves storage as it was. */
    method SaveEvents(events: seq<Event>, writeOk: bool)
      modifies this
      ensures slot == if writeOk then Stored(events) else old(slot)
    {
      if writeOk {
        slot := Stored(events);
      }
    }

    /** `addEvent(data)`: read, push `{ id, ...data }`, write back. `id` stands for `crypto.randomUUID()`. */
    method AddEvent(data: Fields, id: string, writeOk: bool)
      requires id !in Ids(Events())
      modifies this
      ensures slot == if writeOk then Stored(old(Events()) + [NewEvent(id, data)]) else old(slot)
      ensures Events() == if writeOk then old(Events()) + [NewEvent(id, data)] else old(Events())
    {
      var events := GetEvents();
      events := events + [NewEvent(id, data)];
      SaveEvents(events, writeOk);
    }

    /** `updateEvent(id, data)`: replace the first record holding `id` by `{ ...old, ...data }`;
        when there is none, nothing is written at all. */
    method UpdateEvent(id: string, data: Patch, writeOk: bool)
      modifies this
      ensures id !in Ids(old(Events())) ==> slot == old(slot)
      ensures id in Ids(old(Events())) ==>
        slot == if writeOk then Stored(Updated(old(Events()), id, data)) else old(slot)
      ensures Events() == if writeOk then Updated(old(Events()), id, data) else old(Events())
    {
      var events := GetEvents();
      var idx := FindIndex(events, id);
      if idx != -1 {
        events := events[idx := Merge(events[idx], data)];
        SaveEvents(events, writeOk);
      }
    }

    /** `deleteEvent(id)`: write back the records not holding `id` (always writes, even when `id` is absent). */
    method DeleteEvent(id: string, writeOk: bool)
      modifies this
      ensures slot == if writeOk then Stored(WithoutId(old(Events()), id)) else old(slot)
      ensures Events() == if writeOk then WithoutId(old(Events()), id) else old(Events())
    {
      var events := GetEvents();
      events := WithoutId(events, id);
      SaveEvents(events, writeOk);
    }
  }
}
