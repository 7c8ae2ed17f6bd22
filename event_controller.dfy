/** The controller: it loads the events, adds a draft row when the add button
    is clicked, and routes every click in the table by the clicked button's
    class and by whether the row is the draft row. Each handler is one
    atomic step. What a step does is given by a function on `Screen`, the
    store, the rows and the requests sent so far; the methods of
    `EventController` perform the same step on the store and view objects
    and are proved to match it. */
module Controller {
  import opened JsValues
  import opened Strings
  import opened RowIds
  import opened EventStore
  import opened TableView

  /** A request to the backend's `/events` resource. */
  datatype Request =
    | GetAllRequest                             // GET /events
    | AddRequest(newEvent: Fields)              // POST /events with {name, start, end}
    | EditRequest(id: Id, updated: Event)       // PUT /events/{id}
    | DeleteRequest(id: Id)                     // DELETE /events/{id}

  /** Everything a handler can change. */
  datatype Screen = Screen(store: seq<Event>, rows: seq<Row>, sent: seq<Request>)

  /** The `{}` the add button hands to the view: no id, and fields the draft
      row does not show. */
  const Blank: Event := Event(Undefined, "", "", "")

  /** What a save reads from the row's inputs: the name trimmed, the dates
      as they are. */
  function Submitted(typed: Fields): Fields {
    Fields(Trim(typed.name), typed.start, typed.end)
  }

  /** The save goes ahead: none of `name`, `start`, `end` is falsy. */
  predicate Complete(f: Fields) {
    f.name != "" && f.start != "" && f.end != ""
  }

  /** A save is accepted exactly when the typed name has a character that is
      not white space and both dates are filled in. */
  lemma AcceptedIff(typed: Fields)
    ensures Complete(Submitted(typed)) <==>
      && (exists k :: 0 <= k < |typed.name| && !IsSpace(typed.name[k]))
      && typed.start != "" && typed.end != ""
  {
    TrimEmptyIff(typed.name);
  }

  /** `updateRowToDisplayMode(row, fields)`: the row shows the fields as
      text with the edit and delete buttons; its id stays as it was. */
  function ToDisplay(rows: seq<Row>, i: nat, f: Fields): seq<Row>
    requires i < |rows|
  {
    rows[i := rows[i].(state := Display(f))]
  }

  /** `init()`: the events the backend lists become the store and are
      rendered. */
  function AfterLoad(s: Screen, listed: seq<Event>): Screen {
    Screen(listed, Rendered(listed), s.sent + [GetAllRequest])
  }

  /** The add button's listener: a draft row is appended. */
  function AfterAddClick(s: Screen): Screen {
    s.(rows := s.rows + [NewRow(Blank, true)])
  }

  /** `saveNewEvent(row)`: on an accepted save the backend's answer is
      appended to the store and shown in the row. `updateRowToDisplayMode`
      rewrites only the row's cells, so the row keeps the draft row id. */
  function AfterSaveNew(s: Screen, i: nat, typed: Fields, response: Event): Screen
    requires i < |s.rows|
  {
    var newEvent := Submitted(typed);
    if !Complete(newEvent) then s
    else Screen(s.store + [response], ToDisplay(s.rows, i, FieldsOf(response)), s.sent + [AddRequest(newEvent)])
  }

  /** The create step with the saved row re-keyed: the saved record replaces
      the draft in the view under its own row id `event-<id>`, so later
      clicks on that row reach the record and a later draft row is told
      apart from it. */
  function AfterSaveNewRekeyed(s: Screen, i: nat, typed: Fields, response: Event): Screen
    requires i < |s.rows|
  {
    var newEvent := Submitted(typed);
    if !Complete(newEvent) then s
    else
      var shown := Row(EncodeRowId(response.id), Display(FieldsOf(response)));
      Screen(s.store + [response], s.rows[i := shown], s.sent + [AddRequest(newEvent)])
  }

  /** `updateEvent(row)`: the id is read back from the row id; on an
      accepted save the backend is told, every store record with that id
      becomes the update, and the row shows it. */
  function AfterUpdate(s: Screen, i: nat, typed: Fields): Screen
    requires i < |s.rows|
  {
    var id := DecodeRowId(s.rows[i].rowId);
    var f := Submitted(typed);
    if !Complete(f) then s
    else
      var updated := Event(id, f.name, f.start, f.end);
      Screen(Replaced(s.store, id, updated), ToDisplay(s.rows, i, f), s.sent + [EditRequest(id, updated)])
  }

  /** `editEvent(row)`: the shown fields are stashed and the row turns into
      inputs. */
  function AfterEdit(s: Screen, i: nat): Screen
    requires i < |s.rows| && s.rows[i].state.Display?
  {
    s.(rows := s.rows[i := s.rows[i].(state := Editing(s.rows[i].state.cells))])
  }

  /** `discardEdit(row)`: the stashed fields are shown again. */
  function AfterDiscardEdit(s: Screen, i: nat): Screen
    requires i < |s.rows| && s.rows[i].state.Editing?
  {
    s.(rows := ToDisplay(s.rows, i, s.rows[i].state.original))
  }

  /** `view.removeEvent("new")`: the first row with the draft row id goes. */
  function AfterDiscardDraft(s: Screen): Screen {
    s.(rows := RowRemoved(s.rows, RowKey(Str(Sentinel))))
  }

  /** `deleteEvent(row)`: the id is read back from the row id; the backend is
      told, the store drops every record with that id and the view drops the
      first row whose id is rebuilt from it. The response is not looked at. */
  function AfterDelete(s: Screen, i: nat): Screen
    requires i < |s.rows|
  {
    var id := DecodeRowId(s.rows[i].rowId);
    Screen(Without(s.store, id), RowRemoved(s.rows, RowKey(id)), s.sent + [DeleteRequest(id)])
  }

  /** The table's click listener: the clicked button's class picks the
      handler, and for save and discard the row id decides between the
      draft and an edited row. `typed` is what the row's inputs hold and
      `response` what the backend answers to a create. */
  function AfterClick(s: Screen, i: nat, t: Target, typed: Fields, response: Event): Screen
    requires i < |s.rows| && Shows(s.rows[i].state, t) && Keyed(s.rows[i])
  {
    var row := s.rows[i];
    match t
    case SaveButton =>
      if row.rowId == DraftRowId then AfterSaveNew(s, i, typed, response) else AfterUpdate(s, i, typed)
    case DiscardButton =>
      if row.rowId == DraftRowId then AfterDiscardDraft(s) else AfterDiscardEdit(s, i)
    case EditButton => AfterEdit(s, i)
    case DeleteButton => AfterDelete(s, i)
    case Elsewhere => s
  }

  /** The click listener with the create step re-keying the saved row; every
      other click is handled as by `AfterClick`. */
  function AfterClickRekeyed(s: Screen, i: nat, t: Target, typed: Fields, response: Event): Screen
    requires i < |s.rows| && Shows(s.rows[i].state, t) && Keyed(s.rows[i])
  {
    if t == SaveButton && s.rows[i].rowId == DraftRowId then AfterSaveNewRekeyed(s, i, typed, response)
    else AfterClick(s, i, t, typed, response)
  }

  /** The backend, seen from the page: the requests sent, in order. What it
      answers is a parameter. */
  class EventApi {
    var sent: seq<Request>

    constructor ()
      ensures sent == []
    {
      sent := [];
    }

    method GetAll(listed: seq<Event>) returns (events: seq<Event>)
      modifies this
      ensures sent == old(sent) + [GetAllRequest]
      ensures events == listed
    {
      sent := sent + [GetAllRequest];
      events := listed;
    }

    /** The create call returns whatever the backend answers. */
    method Add(newEvent: Fields, response: Event) returns (saved: Event)
      modifies this
      ensures sent == old(sent) + [AddRequest(newEvent)]
      ensures saved == response
    {
      sent := sent + [AddRequest(newEvent)];
      saved := response;
    }

    /** The update call; its response is ignored. */
    method Edit(id: Id, updated: Event)
      modifies this
      ensures sent == old(sent) + [EditRequest(id, updated)]
    {
      sent := sent + [EditRequest(id, updated)];
    }

    /** The delete call; its response is ignored. */
    method DeleteById(id: Id)
      modifies this
      ensures sent == old(sent) + [DeleteRequest(id)]
    {
      sent := sent + [DeleteRequest(id)];
    }
  }

  class EventController {
    const model: EventModel
    const view: EventView
    const api: EventApi

    constructor (model: EventModel, view: EventView, api: EventApi)
      ensures this.model == model && this.view == view && this.api == api
    {
      this.model := model;
      this.view := view;
      this.api := api;
    }

    function Current(): Screen
      reads model, view, api
    {
      Screen(model.events, view.rows, api.sent)
    }

    /** Loads every event into the store and renders it. */
    method Init(listed: seq<Event>)
      modifies model, view, api
      ensures Current() == AfterLoad(old(Current()), listed)
    {
      var events := api.GetAll(listed);
      model.SetEvents(events);
      view.RenderEvents(events);
    }

    /** The add button's listener. */
    method AddEventClicked()
      modifies view
      ensures Current() == AfterAddClick(old(Current()))
    {
      view.AddEvent(Blank, true);
    }

    /** The delegated click listener of the table body. */
    method EventActionClicked(i: nat, t: Target, typed: Fields, response: Event)
      requires i < |view.rows| && Shows(view.rows[i].state, t) && Keyed(view.rows[i])
      modifies model, view, api
      ensures Current() == AfterClick(old(Current()), i, t, typed, response)
    {
      var row := view.rows[i];
      if t == SaveButton {
        if row.rowId == DraftRowId {
          SaveNewEvent(i, typed, response);
        } else {
          UpdateEvent(i, typed);
        }
      } else if t == DiscardButton {
        if row.rowId == DraftRowId {
          view.RemoveEvent(Str(Sentinel));
        } else {
          DiscardEdit(i);
        }
      } else if t == EditButton {
        EditEvent(i);
      } else if t == DeleteButton {
        DeleteEvent(i);
      }
    }

    method SaveNewEvent(i: nat, typed: Fields, response: Event)
      requires i < |view.rows|
      modifies model, view, api
      ensures Current() == AfterSaveNew(old(Current()), i, typed, response)
    {
      var newEvent := Submitted(typed);
      if !Complete(newEvent) {
        return;
      }
      var saved := api.Add(newEvent, response);
      model.AddEvent(saved);
      UpdateRowToDisplayMode(i, FieldsOf(saved));
    }

    method EditEvent(i: nat)
      requires i < |view.rows| && view.rows[i].state.Display?
      modifies view
      ensures Current() == AfterEdit(old(Current()), i)
    {
      var original := view.rows[i].state.cells;
      view.rows := view.rows[i := view.rows[i].(state := Editing(original))];
    }

    method UpdateEvent(i: nat, typed: Fields)
      requires i < |view.rows|
      modifies model, view, api
      ensures Current() == AfterUpdate(old(Current()), i, typed)
    {
      var id := DecodeRowId(view.rows[i].rowId);
      var f := Submitted(typed);
      if !Complete(f) {
        return;
      }
      var updated := Event(id, f.name, f.start, f.end);
      api.Edit(id, updated);
      var events := model.GetEvents();
      model.SetEvents(Replaced(events, id, updated));
      UpdateRowToDisplayMode(i, f);
    }

    method DiscardEdit(i: nat)
      requires i < |view.rows| && view.rows[i].state.Editing?
      modifies view
      ensures Current() == AfterDiscardEdit(old(Current()), i)
    {
      UpdateRowToDisplayMode(i, view.rows[i].state.original);
    }

    method DeleteEvent(i: nat)
      requires i < |view.rows|
      modifies model, view, api
      ensures Current() == AfterDelete(old(Current()), i)
    {
      var id := DecodeRowId(view.rows[i].rowId);
      api.DeleteById(id);
      model.RemoveEvent(id);
      view.RemoveEvent(id);
    }

    method UpdateRowToDisplayMode(i: nat, f: Fields)
      requires i < |view.rows|
      modifies view
      ensures view.rows == ToDisplay(old(view.rows), i, f)
    {
      view.rows := ToDisplay(view.rows, i, f);
    }
  }
}
