/** The table of events as an abstract list of rows: each row has its DOM id
    and the state its cells and buttons are in. The HTML of the cells is not
    modelled; a row's state says what they show. */
module TableView {
  import opened JsValues
  import opened RowIds
  import opened EventStore

  /** What a row shows.
      - `Draft`: three empty inputs with the save and discard buttons.
      - `Display(cells)`: the three fields as text with the edit and delete buttons.
      - `Editing(original)`: three inputs with the save and discard buttons;
        `original` is what the row showed before editing, stashed on the row. */
  datatype RowState = Draft | Display(cells: Fields) | Editing(original: Fields)

  datatype Row = Row(rowId: string, state: RowState)

  /** Where a click inside the table lands: on a button, named by its class,
      or anywhere else. */
  datatype Target = SaveButton | DiscardButton | EditButton | DeleteButton | Elsewhere

  /** Whether a row in this state has that target: draft and editing rows
      carry save and discard, display rows carry edit and delete. */
  predicate Shows(st: RowState, t: Target) {
    match t
    case SaveButton => st.Draft? || st.Editing?
    case DiscardButton => st.Draft? || st.Editing?
    case EditButton => st.Display?
    case DeleteButton => st.Display?
    case Elsewhere => true
  }

  /** A draft row always carries the draft row id. */
  predicate Keyed(row: Row) {
    row.state.Draft? ==> row.rowId == DraftRowId
  }

  predicate AllKeyed(rows: seq<Row>) {
    forall k :: 0 <= k < |rows| ==> Keyed(rows[k])
  }

  /** The row that `addEvent(event, isNew)` appends. */
  function NewRow(e: Event, isNew: bool): Row {
    Row(EncodeRowId(e.id), if isNew then Draft else Display(FieldsOf(e)))
  }

  /** The rows `renderEvents(xs)` leaves: one display row per event, in order. */
  function Rendered(xs: seq<Event>): (rows: seq<Row>)
    ensures |rows| == |xs|
  {
    seq(|xs|, k requires 0 <= k < |xs| => NewRow(xs[k], false))
  }

  /** The position of the first row with this id, or the number of rows when
      there is none: `document.getElementById` finds the first match in
      document order. */
  function FirstIndex(rows: seq<Row>, rowId: string): (k: nat)
    ensures k <= |rows|
    ensures k < |rows| ==> rows[k].rowId == rowId
    ensures forall j :: 0 <= j < k ==> rows[j].rowId != rowId
  {
    if rows == [] then 0
    else if rows[0].rowId == rowId then 0
    else 1 + FirstIndex(rows[1..], rowId)
  }

  /** The rows after `row.remove()` on the first row with this id, if any. */
  function RowRemoved(rows: seq<Row>, rowId: string): seq<Row> {
    var k := FirstIndex(rows, rowId);
    if k < |rows| then rows[..k] + rows[k + 1..] else rows
  }

  /** Every event gets one display row showing its fields under its encoded
      id, in the order of the events, and no other row. */
  lemma RenderedRows(xs: seq<Event>)
    ensures |Rendered(xs)| == |xs|
    ensures forall k :: 0 <= k < |xs| ==>
      Rendered(xs)[k] == Row(EncodeRowId(xs[k].id), Display(FieldsOf(xs[k])))
    ensures AllKeyed(Rendered(xs))
  {
  }

  /** Removing an id no row carries is a no-op. */
  lemma RowRemovedAbsent(rows: seq<Row>, rowId: string)
    requires forall j :: 0 <= j < |rows| ==> rows[j].rowId != rowId
    ensures RowRemoved(rows, rowId) == rows
  {
  }

  /** The first row that carries the id is the one that goes. */
  lemma RowRemovedFirst(rows: seq<Row>, k: nat)
    requires k < |rows|
    requires forall j :: 0 <= j < k ==> rows[j].rowId != rows[k].rowId
    ensures RowRemoved(rows, rows[k].rowId) == rows[..k] + rows[k + 1..]
  {
  }

  /** When only row `i` carries the id, exactly that row goes. */
  lemma RowRemovedUnique(rows: seq<Row>, i: nat)
    requires i < |rows|
    requires forall j :: 0 <= j < |rows| && j != i ==> rows[j].rowId != rows[i].rowId
    ensures RowRemoved(rows, rows[i].rowId) == rows[..i] + rows[i + 1..]
  {
  }

  /** Removal takes away at most one row, never one with another id, and
      keeps the rest in order. */
  lemma RowRemovedKeepsOthers(rows: seq<Row>, rowId: string, j: nat)
    requires j < |rows| && rows[j].rowId != rowId
    ensures rows[j] in RowRemoved(rows, rowId)
    ensures |RowRemoved(rows, rowId)| >= |rows| - 1
  {
    var k := FirstIndex(rows, rowId);
    if k < |rows| {
      if j < k {
        assert RowRemoved(rows, rowId)[j] == rows[j];
      } else {
        assert RowRemoved(rows, rowId)[j - 1] == rows[j];
      }
    }
  }

  /** Removing a row keeps every draft row under the draft row id. */
  lemma RowRemovedKeyed(rows: seq<Row>, rowId: string)
    requires AllKeyed(rows)
    ensures AllKeyed(RowRemoved(rows, rowId))
  {
    var k := FirstIndex(rows, rowId);
    if k < |rows| {
      var r := RowRemoved(rows, rowId);
      forall j | 0 <= j < |r| ensures Keyed(r[j]) {
        if j < k {
          assert r[j] == rows[j];
        } else {
          assert r[j] == rows[j + 1];
        }
      }
    }
  }

  /** The table body: its rows, first to last. */
  class EventView {
    var rows: seq<Row>

    constructor ()
      ensures rows == []
    {
      rows := [];
    }

    /** Clears the table, then appends one display row per event. */
    method RenderEvents(xs: seq<Event>)
      modifies this
      ensures rows == Rendered(xs)
    {
      rows := [];
      for k := 0 to |xs|
        invariant |rows| == k
        invariant forall j :: 0 <= j < k ==> rows[j] == NewRow(xs[j], false)
      {
        AddEvent(xs[k], false);
      }
    }

    /** Appends one row: a draft row when `isNew`, a display row otherwise. */
    method AddEvent(e: Event, isNew: bool)
      modifies this
      ensures rows == old(rows) + [NewRow(e, isNew)]
    {
      rows := rows + [NewRow(e, isNew)];
    }

    /** Detaches the first row whose id is `event-<id>`; no-op if there is none. */
    method RemoveEvent(id: Id)
      modifies this
      ensures rows == RowRemoved(old(rows), RowKey(id))
    {
      rows := RowRemoved(rows, RowKey(id));
    }
  }
}
