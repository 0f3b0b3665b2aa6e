/** Event records and the pure list operations the store and the grid apply to them:
    `filter`, `findIndex`, `find` and the object spread `{ ...old, ...data }`. */
module Events {
  import opened Wrappers

  /** A stored record `{ id, title, date, time, description }`. */
  datatype Event = Event(id: string, title: string, date: string, time: string, description: string)

  /** The submitted form data `{ title, date, time, description }`. */
  datatype Fields = Fields(title: string, date: string, time: string, description: string)

  /** A partial record for `{ ...old, ...data }`: `None` means the key is absent from `data`. */
  datatype Patch = Patch(title: Option<string>, date: Option<string>, time: Option<string>, description: Option<string>)

  /** `{ id, ...data }`, the record `addEvent` appends. */
  function NewEvent(id: string, f: Fields): Event {
    Event(id, f.title, f.date, f.time, f.description)
  }

  /** The submit handler always passes all four fields. */
  function FullPatch(f: Fields): Patch {
    Patch(Some(f.title), Some(f.date), Some(f.time), Some(f.description))
  }

  function Override(o: Option<string>, prior: string): string {
    if o.Some? then o.value else prior
  }

  /** `{ ...e, ...p }`: keys present in `p` win, the rest (and `id`) come from `e`. */
  function Merge(e: Event, p: Patch): Event {
    Event(e.id, Override(p.title, e.title), Override(p.date, e.date),
          Override(p.time, e.time), Override(p.description, e.description))
  }

  /** `s.filter(keep)`: the kept elements, in their original order. */
  function Filter<T(!new)>(s: seq<T>, keep: T -> bool): (r: seq<T>)
    ensures |r| <= |s|
    ensures forall x :: x in r <==> x in s && keep(x)
  {
    if |s| == 0 then [] else (if keep(s[0]) then [s[0]] else []) + Filter(s[1..], keep)
  }

  /** `events.filter(e => e.date === date)`: the events a day cell shows. */
  function OnDate(events: seq<Event>, date: string): seq<Event> {
    Filter(events, (e: Event) => e.date == date)
  }

  /** `events.filter(e => e.id !== id)`: what `deleteEvent` writes back. */
  function WithoutId(events: seq<Event>, id: string): seq<Event> {
    Filter(events, (e: Event) => e.id != id)
  }

  function Ids(events: seq<Event>): set<string> {
    set e | e in events :: e.id
  }

  predicate UniqueIds(events: seq<Event>) {
    forall i, j | 0 <= i < j < |events| :: events[i].id != events[j].id
  }

  /** `events.findIndex(e => e.id === id)`: the first position holding `id`, or -1. */
  function FindIndex(events: seq<Event>, id: string): (r: int)
    ensures -1 <= r < |events|
    ensures r == -1 <==> id !in Ids(events)
    ensures r >= 0 ==> events[r].id == id && forall k | 0 <= k < r :: events[k].id != id
  {
    if |events| == 0 then -1
    else if events[0].id == id then 0
    else
      var k := FindIndex(events[1..], id);
      assert forall e | e in events[1..] :: e in events;
      assert forall e | e in events && e != events[0] :: e in events[1..];
      if k == -1 then -1 else k + 1
  }

  /** `events.find(ev => ev.id === id)`: the first record holding `id`. */
  function Find(events: seq<Event>, id: string): Option<Event> {
    if |events| == 0 then None
    else if events[0].id == id then Some(events[0])
    else Find(events[1..], id)
  }

  /** The body of `updateEvent`: the first record holding `id` becomes `{ ...old, ...p }`. */
  function Updated(events: seq<Event>, id: string, p: Patch): seq<Event> {
    var k := FindIndex(events, id);
    if k == -1 then events else events[k := Merge(events[k], p)]
  }

  // ----- properties -----

  /** `find` returns exactly the element at the position `findIndex` reports. */
  lemma {:induction false} FindAgreesWithFindIndex(events: seq<Event>, id: string)
    ensures var k := FindIndex(events, id);
      Find(events, id) == if k == -1 then None else Some(events[k])
  {
    if |events| > 0 && events[0].id != id {
      FindAgreesWithFindIndex(events[1..], id);
    }
  }

  /** Filtering distributes over concatenation, so kept elements stay in their original order. */
  lemma {:induction false} FilterConcat<T(!new)>(a: seq<T>, b: seq<T>, keep: T -> bool)
    ensures Filter(a + b, keep) == Filter(a, keep) + Filter(b, keep)
  {
    if |a| > 0 {
      assert (a + b)[1..] == a[1..] + b;
      FilterConcat(a[1..], b, keep);
    } else {
      assert a + b == b;
    }
  }

  /** Nothing is dropped when every element is kept. */
  lemma {:induction false} FilterKeepsAll<T(!new)>(s: seq<T>, keep: T -> bool)
    requires forall k | 0 <= k < |s| :: keep(s[k])
    ensures Filter(s, keep) == s
  {
    if |s| > 0 {
      FilterKeepsAll(s[1..], keep);
    }
  }

  /** What a filter keeps nothing of, it returns empty. */
  lemma {:induction false} FilterDropsAll<T(!new)>(s: seq<T>, keep: T -> bool)
    requires forall k | 0 <= k < |s| :: !keep(s[k])
    ensures Filter(s, keep) == []
  {
    if |s| > 0 {
      FilterDropsAll(s[1..], keep);
    }
  }

  /** `{ ...e, ...data }` with all four submitted fields: the record takes the form's values, keeps its id. */
  lemma MergeFull(e: Event, f: Fields)
    ensures Merge(e, FullPatch(f)) == NewEvent(e.id, f)
  {
  }

  /** Spreading `{ title }` alone changes only the title. */
  lemma MergeTitleOnly(e: Event, title: string)
    ensures Merge(e, Patch(Some(title), None, None, None)) == e.(title := title)
  {
  }

  /** After `addEvent` with a fresh id, `find` by that id yields the new record with all submitted fields,
      every earlier lookup is unchanged, and ids stay unique. */
  lemma {:induction false} AddThenFind(events: seq<Event>, id: string, f: Fields, other: string)
    requires id !in Ids(events)
    ensures Find(events + [NewEvent(id, f)], id) == Some(NewEvent(id, f))
    ensures other != id ==> Find(events + [NewEvent(id, f)], other) == Find(events, other)
    ensures UniqueIds(events) ==> UniqueIds(events + [NewEvent(id, f)])
  {
    var e := NewEvent(id, f);
    if |events| > 0 {
      assert (events + [e])[1..] == events[1..] + [e];
      assert events[0] in events;
      assert Ids(events[1..]) <= Ids(events) by {
        forall x | x in Ids(events[1..]) ensures x in Ids(events) {
          var y :| y in events[1..] && y.id == x;
          assert y in events;
        }
      }
      AddThenFind(events[1..], id, f, other);
    }
    if UniqueIds(events) {
      var s := events + [e];
      forall i, j | 0 <= i < j < |s| ensures s[i].id != s[j].id {
        if j == |events| {
          assert s[i] in events;
        }
      }
    }
  }

  /** `updateEvent` keeps the length and every position but the first holding `id`;
      without such a record it changes nothing. */
  lemma UpdatedShape(events: seq<Event>, id: string, p: Patch)
    ensures |Updated(events, id, p)| == |events|
    ensures forall j | 0 <= j < |events| && j != FindIndex(events, id) :: Updated(events, id, p)[j] == events[j]
    ensures FindIndex(events, id) >= 0 ==>
      Updated(events, id, p)[FindIndex(events, id)] == Merge(events[FindIndex(events, id)], p)
    ensures id !in Ids(events) ==> Updated(events, id, p) == events
  {
  }

  /** Lookups after `updateEvent`: the updated id finds the merged record, every other id what it found before. */
  lemma UpdateThenFind(events: seq<Event>, id: string, p: Patch, other: string)
    ensures Find(events, id).Some? ==> Find(Updated(events, id, p), id) == Some(Merge(Find(events, id).value, p))
    ensures Find(events, id).None? ==> Find(Updated(events, id, p), id) == None
    ensures other != id ==> Find(Updated(events, id, p), other) == Find(events, other)
  {
    var u := Updated(events, id, p);
    var k := FindIndex(events, id);
    FindAgreesWithFindIndex(events, id);
    FindAgreesWithFindIndex(events, other);
    if k >= 0 {
      assert forall j | 0 <= j < |u| && j != k :: u[j].id == events[j].id;
      assert u[k].id == events[k].id;
      FindIndexSameIds(events, u, id);
      FindIndexSameIds(events, u, other);
      FindAgreesWithFindIndex(u, id);
      FindAgreesWithFindIndex(u, other);
    }
  }

  /** Two lists with the same id at every position answer `findIndex` alike. */
  lemma {:induction false} FindIndexSameIds(a: seq<Event>, b: seq<Event>, id: string)
    requires |a| == |b| && forall j | 0 <= j < |a| :: a[j].id == b[j].id
    ensures FindIndex(a, id) == FindIndex(b, id)
  {
    if |a| > 0 && a[0].id != id {
      FindIndexSameIds(a[1..], b[1..], id);
    }
  }

  /** `deleteEvent` removes every record holding `id` and no other, keeping the order of the rest;
      with `id` absent it changes nothing. */
  lemma DeleteShape(events: seq<Event>, id: string)
    ensures forall e :: e in WithoutId(events, id) <==> e in events && e.id != id
    ensures id !in Ids(events) ==> WithoutId(events, id) == events
  {
    if id !in Ids(events) {
      forall k | 0 <= k < |events| ensures events[k].id != id {
        assert events[k] in events;
      }
      FilterKeepsAll(events, (e: Event) => e.id != id);
    }
  }

  /** After `deleteEvent`, the deleted id finds nothing and every other id finds what it found before. */
  lemma {:induction false} DeleteThenFind(events: seq<Event>, id: string, other: string)
    ensures Find(WithoutId(events, id), id) == None
    ensures other != id ==> Find(WithoutId(events, id), other) == Find(events, other)
  {
    var keep := (e: Event) => e.id != id;
    if |events| > 0 {
      var head := if keep(events[0]) then [events[0]] else [];
      var w := WithoutId(events[1..], id);
      assert WithoutId(events, id) == head + w;
      DeleteThenFind(events[1..], id, other);
      if head != [] {
        assert (head + w)[0] == events[0];
        assert (head + w)[1..] == w;
      } else {
        assert head + w == w;
      }
    }
  }

  /** With unique ids, deleting a present id shrinks the list by exactly one. */
  lemma {:induction false} DeleteUniqueShrinksByOne(events: seq<Event>, id: string)
    requires UniqueIds(events) && id in Ids(events)
    ensures |WithoutId(events, id)| == |events| - 1
  {
    assert |events| > 0;
    var rest := events[1..];
    assert WithoutId(events, id) == (if events[0].id != id then [events[0]] else []) + WithoutId(rest, id);
    assert UniqueIds(rest);
    if events[0].id == id {
      forall e | e in rest ensures e.id != id {
        var j :| 0 <= j < |rest| && rest[j] == e;
        assert events[j + 1] == e;
      }
      DeleteShape(rest, id);
    } else {
      assert id in Ids(rest) by {
        var e :| e in events && e.id == id;
        var j :| 0 <= j < |events| && events[j] == e;
        assert rest[j - 1] == e;
      }
      DeleteUniqueShrinksByOne(rest, id);
    }
  }
}
