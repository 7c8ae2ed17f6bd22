/** The in-memory event store: one ordered sequence of event records that
    the controller replaces, reads, appends to and filters by id. */
module EventStore {
  import opened JsValues

  /** The three fields a user sees and types: a name and two ISO dates. */
  datatype Fields = Fields(name: string, start: string, end: string)

  /** An event record. A draft has no id yet (`Undefined`); the backend
      assigns one on creation. */
  datatype Event = Event(id: Id, name: string, start: string, end: string)

  function FieldsOf(e: Event): Fields {
    Fields(e.name, e.start, e.end)
  }

  /** How many records carry exactly this id (`===`). */
  function CountId(xs: seq<Event>, id: Id): (n: nat)
    ensures n <= |xs|
  {
    if xs == [] then 0 else (if xs[0].id == id then 1 else 0) + CountId(xs[1..], id)
  }

  /** The count is zero exactly when no record carries the id. */
  lemma {:induction false} CountIdZeroIff(xs: seq<Event>, id: Id)
    ensures CountId(xs, id) == 0 <==> forall k :: 0 <= k < |xs| ==> xs[k].id != id
  {
    if xs != [] {
      CountIdZeroIff(xs[1..], id);
      assert forall k :: 1 <= k < |xs| ==> xs[k] == xs[1..][k - 1];
    }
  }

  /** The filter on a single record. */
  lemma WithoutSingle(e: Event, id: Id)
    ensures Without([e], id) == if e.id == id then [] else [e]
  {
    assert [e][1..] == [];
  }

  /** Appending a record adds one to its id's count and leaves every other
      id's count alone. */
  lemma {:induction false} CountIdAppend(xs: seq<Event>, e: Event, id: Id)
    ensures CountId(xs + [e], id) == CountId(xs, id) + (if e.id == id then 1 else 0)
  {
    if xs != [] {
      assert (xs + [e])[1..] == xs[1..] + [e];
      CountIdAppend(xs[1..], e, id);
    } else {
      assert [e][1..] == [];
    }
  }

  /** `xs.filter((event) => event.id !== id)`: the records whose id is not
      strictly equal to `id`: exactly the matching records are dropped. */
  function Without(xs: seq<Event>, id: Id): seq<Event> {
    if xs == [] then []
    else (if xs[0].id == id then [] else [xs[0]]) + Without(xs[1..], id)
  }

  /** Exactly the matching records are dropped: the filter is shorter by the
      number of records carrying the id. */
  lemma {:induction false} WithoutLength(xs: seq<Event>, id: Id)
    ensures |Without(xs, id)| == |xs| - CountId(xs, id)
  {
    if xs != [] {
      WithoutLength(xs[1..], id);
    }
  }

  /** `xs.map((event) => (event.id === id ? updated : event))`: same length,
      and only the records whose id matches are replaced. */
  function Replaced(xs: seq<Event>, id: Id, updated: Event): (r: seq<Event>)
    ensures |r| == |xs|
  {
    if xs == [] then []
    else [if xs[0].id == id then updated else xs[0]] + Replaced(xs[1..], id, updated)
  }

  /** The filter keeps relative order: filtering a concatenation filters
      each part. Together with its effect on one record this determines
      `Without` completely. */
  lemma {:induction false} WithoutConcat(a: seq<Event>, b: seq<Event>, id: Id)
    ensures Without(a + b, id) == Without(a, id) + Without(b, id)
  {
    if a == [] {
      assert a + b == b;
    } else {
      var head := if a[0].id == id then [] else [a[0]];
      assert Without(a + b, id) == head + Without(a[1..] + b, id) by {
        assert (a + b)[0] == a[0];
        assert (a + b)[1..] == a[1..] + b;
      }
      WithoutConcat(a[1..], b, id);
      assert head + (Without(a[1..], id) + Without(b, id))
        == (head + Without(a[1..], id)) + Without(b, id);
    }
  }

  /** A record is kept exactly when it was in the store and its id is not
      the one removed. */
  lemma {:induction false} WithoutMembers(xs: seq<Event>, id: Id, e: Event)
    ensures e in Without(xs, id) <==> e in xs && e.id != id
  {
    if xs != [] {
      WithoutMembers(xs[1..], id, e);
      assert xs == [xs[0]] + xs[1..];
    }
  }

  /** Removing an id that no record carries changes nothing. */
  lemma {:induction false} WithoutAbsent(xs: seq<Event>, id: Id)
    requires forall k :: 0 <= k < |xs| ==> xs[k].id != id
    ensures Without(xs, id) == xs
  {
    if xs != [] {
      WithoutAbsent(xs[1..], id);
      assert xs == [xs[0]] + xs[1..];
    }
  }

  /** Removing the same id twice is removing it once. */
  lemma WithoutIdempotent(xs: seq<Event>, id: Id)
    ensures Without(Without(xs, id), id) == Without(xs, id)
  {
    var r := Without(xs, id);
    forall k | 0 <= k < |r| ensures r[k].id != id {
      WithoutMembers(xs, id, r[k]);
    }
    WithoutAbsent(r, id);
  }

  /** With ids unique in the store, removing a present id removes exactly the
      one record at its position. */
  lemma {:induction false} WithoutUnique(xs: seq<Event>, id: Id, k: nat)
    requires k < |xs| && xs[k].id == id
    requires forall j :: 0 <= j < |xs| && j != k ==> xs[j].id != id
    ensures Without(xs, id) == xs[..k] + xs[k + 1..]
  {
    var tail := xs[1..];
    if k == 0 {
      assert forall j :: 0 <= j < |tail| ==> tail[j] == xs[j + 1];
      WithoutAbsent(tail, id);
    } else {
      assert forall j :: 0 <= j < |tail| && j != k - 1 ==> tail[j] == xs[j + 1];
      WithoutUnique(tail, id, k - 1);
      assert tail[..k - 1] + tail[k..] == xs[1..k] + xs[k + 1..];
      assert [xs[0]] + xs[1..k] == xs[..k];
    }
  }

  /** Each position of the mapped store holds the update if the record there
      had the id, and the untouched record otherwise. */
  lemma {:induction false} ReplacedAt(xs: seq<Event>, id: Id, updated: Event, k: nat)
    requires k < |xs|
    ensures Replaced(xs, id, updated)[k] == if xs[k].id == id then updated else xs[k]
  {
    if k > 0 {
      ReplacedAt(xs[1..], id, updated, k - 1);
    }
  }

  /** Mapping with an id that no record carries changes nothing. */
  lemma ReplacedAbsent(xs: seq<Event>, id: Id, updated: Event)
    requires forall k :: 0 <= k < |xs| ==> xs[k].id != id
    ensures Replaced(xs, id, updated) == xs
  {
    forall k | 0 <= k < |xs| ensures Replaced(xs, id, updated)[k] == xs[k] {
      ReplacedAt(xs, id, updated, k);
    }
  }

  /** When the update keeps its id, the records it replaced are the ones a
      later removal of that id drops: edit-then-delete removes what delete
      alone removes. */
  lemma {:induction false} WithoutReplaced(xs: seq<Event>, id: Id, updated: Event)
    requires updated.id == id
    ensures Without(Replaced(xs, id, updated), id) == Without(xs, id)
  {
    if xs != [] {
      WithoutReplaced(xs[1..], id, updated);
    }
  }

  /** The store: the page's one mutable list of events. */
  class EventModel {
    var events: seq<Event>

    constructor ()
      ensures events == []
    {
      events := [];
    }

    /** Replaces the whole sequence. */
    method SetEvents(xs: seq<Event>)
      modifies this
      ensures events == xs
    {
      events := xs;
    }

    /** Returns the current sequence. */
    method GetEvents() returns (xs: seq<Event>)
      ensures xs == events
    {
      xs := events;
    }

    /** Appends one record: one more record, the earlier ones unchanged. */
    method AddEvent(e: Event)
      modifies this
      ensures events == old(events) + [e]
      ensures |events| == |old(events)| + 1
      ensures events[..|old(events)|] == old(events)
    {
      events := events + [e];
    }

    /** Drops every record whose id is strictly equal to `id`, keeping the
        others in order. */
    method RemoveEvent(id: Id)
      modifies this
      ensures events == Without(old(events), id)
    {
      events := Without(events, id);
    }
  }

  /** `setEvents(xs)` followed by `getEvents()` gives `xs` back. */
  method SetThenGet(m: EventModel, xs: seq<Event>) returns (ys: seq<Event>)
    modifies m
    ensures ys == xs
  {
    m.SetEvents(xs);
    ys := m.GetEvents();
  }
}
