# Event list manager: a Dafny model

This project models the browser-side core of a small event list manager.
The page keeps an in-memory store of events (`EventModel`). It renders them
as table rows (`EventView`). A controller (`EventController`) routes clicks
to create, update, discard and delete handlers that talk to a REST backend.
The DOM and the network are abstracted away:

- The store is a class with a `seq<Event>` field.
- The table is a class with a `seq<Row>` field. Each row is its DOM id and a
  state: `Draft`, `Display(cells)` or `Editing(original)`. A removed row is
  simply no longer in the sequence.
- The backend is a class that records the requests sent to it, in order.
  What it answers to a list or a create is a parameter of the handler.
- Every handler is one atomic step. Its effect is a pure function on a
  `Screen` (store, rows, requests sent); the controller's methods change the
  three objects and are proved to do exactly what that function says.

Event ids are a small JavaScript value type (`undefined`, `null`, a number
or a string) with JavaScript truthiness, strict equality (`===`) and string
conversion. This makes two behaviours of the code visible:

- the id read back from a row id with `split("-")[1]` is always a string,
  so a record with a numeric id (such as `{id: 1}`) is never matched by the
  store's `===`/`!==` comparisons on update or delete;
- an id containing a dash does not survive the round trip through the row id.

The step functions and the controller class follow the code as written.
Deleting the row of `{id: 1}` removes the row but leaves the record in the
store, because the filter compares `1` with `"1"`
(`ControllerProperties.DeleteOfNumericIdKeepsRecord`). Saving a new event
leaves the saved row under the draft row id `event-new` (see "## Findings").
The variant in which the saved record takes the draft's place under its own
row id `event-<id>` is kept beside it as `Controller.AfterSaveNewRekeyed` and
`Controller.AfterClickRekeyed`, with its own lemmas.

Modules, one per component: `JsValues` (ids), `Strings` (`trim`,
`split("-")`), `RowIds` (row id encode/decode), `EventStore` (the store),
`TableView` (the rows), `Controller` (the step functions, the backend and
the controller class), `ControllerProperties` (what the handlers promise).

## Model

| member | source | states |
|---|---|---|
| `EventStore.EventModel.constructor` | arvindraju-tadi-eventlist/index.js:5-7 | a new store is empty |
| `EventStore.EventModel.SetEvents` | arvindraju-tadi-eventlist/index.js:9-11 | the store becomes exactly the given sequence |
| `EventStore.EventModel.GetEvents` | arvindraju-tadi-eventlist/index.js:13-15 | returns the current sequence |
| `EventStore.SetThenGet` | arvindraju-tadi-eventlist/index.js:9-15 | `setEvents(xs)` then `getEvents()` gives back `xs` |
| `EventStore.EventModel.AddEvent` | arvindraju-tadi-eventlist/index.js:17-19 | the store is the old one with the record appended: one longer, earlier records unchanged |
| `EventStore.CountIdAppend` | arvindraju-tadi-eventlist/index.js:17-19 | appending a record adds one to the count of its id and leaves other ids' counts alone |
| `EventStore.EventModel.RemoveEvent` | arvindraju-tadi-eventlist/index.js:21-23 | the store becomes the old records whose id is not `===` the given id |
| `EventStore.CountIdZeroIff` | arvindraju-tadi-eventlist/index.js:21-23 | no record carries the id exactly when its count is zero |
| `EventStore.WithoutSingle` | arvindraju-tadi-eventlist/index.js:22 | the filter keeps a single record exactly when its id differs |
| `EventStore.WithoutLength` | arvindraju-tadi-eventlist/index.js:22 | the filter's length is the old length minus the number of records with that id |
| `EventStore.WithoutMembers` | arvindraju-tadi-eventlist/index.js:22 | a record is kept exactly when it was stored and its id differs from the removed id |
| `EventStore.WithoutConcat` | arvindraju-tadi-eventlist/index.js:22 | the filter keeps relative order: filtering a concatenation filters each part |
| `EventStore.WithoutAbsent` | arvindraju-tadi-eventlist/index.js:21-23 | removing an id no record has leaves the store unchanged |
| `EventStore.WithoutIdempotent` | arvindraju-tadi-eventlist/index.js:21-23 | removing an id twice equals removing it once |
| `EventStore.WithoutUnique` | arvindraju-tadi-eventlist/index.js:21-23 | when exactly one record has the id, exactly that record is removed and the rest keep their order |
| `EventStore.Replaced` | arvindraju-tadi-eventlist/index.js:170 | the update's `map` keeps the store's length |
| `EventStore.ReplacedAt` | arvindraju-tadi-eventlist/index.js:169-171 | each position holds the update if its record's id was `===` the id, and the untouched record otherwise |
| `EventStore.ReplacedAbsent` | arvindraju-tadi-eventlist/index.js:169-171 | an update for an id no record has changes nothing |
| `EventStore.WithoutReplaced` | arvindraju-tadi-eventlist/index.js:169-171 | when the update keeps its id, deleting after updating drops what deleting alone drops |
| `JsValues.Truthy` | arvindraju-tadi-eventlist/index.js:40 | JavaScript truthiness of an id: `undefined`, `null`, `0` and `""` are falsy, every other id is truthy |
| `JsValues.Digits` | arvindraju-tadi-eventlist/index.js:40 | the decimal numeral of a natural number: at least one digit, only digits, and a leading `0` exactly for zero |
| `JsValues.Text` | arvindraju-tadi-eventlist/index.js:40 | `String(id)` as a template literal converts it: `"undefined"`, `"null"`, the numeral with a sign, or the string itself |
| `Strings.TrimStart` | arvindraju-tadi-eventlist/index.js:116 | drops leading white space: a suffix of the input, not starting with white space, all dropped characters white space |
| `Strings.TrimEnd` | arvindraju-tadi-eventlist/index.js:116 | drops trailing white space: a prefix of the input, not ending with white space, all dropped characters white space |
| `Strings.Trim` | arvindraju-tadi-eventlist/index.js:116 | `trim()` drops leading and then trailing white space |
| `Strings.Join` | arvindraju-tadi-eventlist/index.js:154 | joins pieces with dashes; the inverse that `JoinSplit` relates to `split("-")` |
| `RowIds.RowKey` | arvindraju-tadi-eventlist/index.js:68 | the row id `event-<id>` that `removeEvent` looks up |
| `RowIds.EncodeRowId` | arvindraju-tadi-eventlist/index.js:40 | the row id `event-${id \|\| "new"}` a new row gets |
| `EventStore.CountId` | arvindraju-tadi-eventlist/index.js:22 | the number of records whose id is `===` the given id, at most the store's length |
| `EventStore.Without` | arvindraju-tadi-eventlist/index.js:22 | `filter((event) => event.id !== id)`: the records whose id differs, in order |
| `Strings.TrimIsInnerSlice` | arvindraju-tadi-eventlist/index.js:116 | `trim()` returns the slice of the string between a run of leading and a run of trailing white space |
| `Strings.TrimHasNoOuterSpace` | arvindraju-tadi-eventlist/index.js:116 | a non-empty trimmed string neither starts nor ends with white space |
| `Strings.TrimEmptyIff` | arvindraju-tadi-eventlist/index.js:158 | the trimmed name is empty exactly when the typed name is all white space |
| `Strings.TrimIdempotent` | arvindraju-tadi-eventlist/index.js:116 | trimming twice equals trimming once |
| `Strings.Split` | arvindraju-tadi-eventlist/index.js:154 | `split("-")` yields at least one piece and no piece contains a dash |
| `Strings.JoinSplit` | arvindraju-tadi-eventlist/index.js:154 | joining the pieces with dashes gives back the string |
| `Strings.SplitNoDash` | arvindraju-tadi-eventlist/index.js:182 | a string without a dash splits into itself alone |
| `Strings.SplitAfterWord` | arvindraju-tadi-eventlist/index.js:182 | a dash-free word, a dash and a rest split into the word and the pieces of the rest |
| `Strings.FirstPieceIsWholeIff` | arvindraju-tadi-eventlist/index.js:154 | the first piece is the whole string exactly when the string holds no dash |
| `RowIds.OrNew` | arvindraju-tadi-eventlist/index.js:40 | `id \|\| "new"` is truthy and is the id itself whenever the id is truthy |
| `RowIds.DecodeRowId` | arvindraju-tadi-eventlist/index.js:154 | the id read back from any row id is a string or `undefined`, never a number |
| `RowIds.DecodeRowKey` | arvindraju-tadi-eventlist/index.js:182 | reading back `event-<text>` gives the text up to its first dash |
| `RowIds.RowIdRoundTrip` | arvindraju-tadi-eventlist/index.js:40 | a non-empty string id survives encode then decode, and the delete path's rebuilt key names its row, exactly when it has no dash |
| `RowIds.FalsyIdIsDraft` | arvindraju-tadi-eventlist/index.js:40 | a falsy id gets the row id `event-new`, which reads back as `"new"` |
| `RowIds.EncodeIsDraftIff` | arvindraju-tadi-eventlist/index.js:40 | a row gets `event-new` exactly when its id is falsy or is the string `"new"` |
| `RowIds.NumberIdDecodesToString` | arvindraju-tadi-eventlist/index.js:182 | a positive numeric id reads back as the string of its digits, a negative one as `""`; never as itself |
| `RowIds.NumberAndItsTextShareRowId` | arvindraju-tadi-eventlist/index.js:40 | a number and the string of its digits are different ids with the same row id |
| `TableView.EventView.constructor` | arvindraju-tadi-eventlist/index.js:28-31 | a new table has no rows |
| `TableView.EventView.RenderEvents` | arvindraju-tadi-eventlist/index.js:33-36 | the table is cleared and then holds one row per event, as the add step builds it, in order |
| `TableView.RenderedRows` | arvindraju-tadi-eventlist/index.js:33-36 | rendering gives exactly one display row per event, in order, showing its fields under its encoded id |
| `TableView.EventView.AddEvent` | arvindraju-tadi-eventlist/index.js:38-65 | one row is appended: a draft row when `isNew`, else a display row of the event, under the encoded id |
| `TableView.EventView.RemoveEvent` | arvindraju-tadi-eventlist/index.js:67-70 | the first row whose id is `event-<id>` is removed, if there is one |
| `TableView.FirstIndex` | arvindraju-tadi-eventlist/index.js:68 | `getElementById` finds the first row carrying the id, or none |
| `TableView.NewRow` | arvindraju-tadi-eventlist/index.js:38-62 | the row `addEvent(event, isNew)` builds: the encoded id, and a draft row when `isNew`, else a display row of the event's fields |
| `TableView.Rendered` | arvindraju-tadi-eventlist/index.js:33-36 | the rows `renderEvents` leaves: one display row per event, in order |
| `TableView.RowRemoved` | arvindraju-tadi-eventlist/index.js:67-70 | `getElementById` then `remove()`: the first row with the id goes, or nothing if there is none |
| `TableView.RowRemovedAbsent` | arvindraju-tadi-eventlist/index.js:67-70 | removing an id no row has changes nothing |
| `TableView.RowRemovedFirst` | arvindraju-tadi-eventlist/index.js:67-70 | the first row carrying the id is the one removed |
| `TableView.RowRemovedUnique` | arvindraju-tadi-eventlist/index.js:67-70 | when only one row carries the id, exactly that row is removed |
| `TableView.RowRemovedKeepsOthers` | arvindraju-tadi-eventlist/index.js:67-70 | at most one row goes, and never a row with another id |
| `TableView.RowRemovedKeyed` | arvindraju-tadi-eventlist/index.js:67-70 | removing a row keeps every draft row under `event-new` |
| `Controller.Submitted` | arvindraju-tadi-eventlist/index.js:115-119 | what a save reads from the inputs: the name trimmed, the dates as typed |
| `Controller.Complete` | arvindraju-tadi-eventlist/index.js:121 | the save goes ahead when none of name, start and end is empty |
| `Controller.ToDisplay` | arvindraju-tadi-eventlist/index.js:188-198 | `updateRowToDisplayMode`: the row shows the fields with edit and delete buttons; its id and every other row stay |
| `Controller.AfterLoad` | arvindraju-tadi-eventlist/index.js:82-86 | `init`: one list request; the store is the listed events and the table is rendered from them |
| `Controller.AfterAddClick` | arvindraju-tadi-eventlist/index.js:94 | the add button appends the draft row of `{}` |
| `Controller.AfterSaveNew` | arvindraju-tadi-eventlist/index.js:113-129 | `saveNewEvent`: a rejected save changes nothing; an accepted one sends the create, appends the answer and shows it in the row, which keeps the draft row id |
| `Controller.AfterSaveNewRekeyed` | arvindraju-tadi-eventlist/index.js:126-128 | the create with the saved row given the saved record's row id `event-<id>` |
| `Controller.AfterUpdate` | arvindraju-tadi-eventlist/index.js:153-174 | `updateEvent`: the id read back from the row id; a rejected save changes nothing; an accepted one sends the update, maps the store and shows the fields |
| `Controller.AfterEdit` | arvindraju-tadi-eventlist/index.js:131-151 | `editEvent`: the shown fields are stashed and the row turns into inputs with save and discard |
| `Controller.AfterDiscardEdit` | arvindraju-tadi-eventlist/index.js:176-179 | `discardEdit`: the stashed fields are shown again |
| `Controller.AfterDiscardDraft` | arvindraju-tadi-eventlist/index.js:104 | `removeEvent("new")`: the first row with id `event-new` is removed |
| `Controller.AfterDelete` | arvindraju-tadi-eventlist/index.js:181-186 | `deleteEvent`: the delete is sent for the read-back id, the store is filtered by it and the row with the rebuilt id is removed |
| `Controller.AfterClick` | arvindraju-tadi-eventlist/index.js:98-110 | the table's click listener: the button class picks the handler, and the row id `event-new` picks create or discard-draft |
| `Controller.AfterClickRekeyed` | arvindraju-tadi-eventlist/index.js:98-110 | the same listener with the create step re-keying the saved row |
| `Controller.AcceptedIff` | arvindraju-tadi-eventlist/index.js:115-124 | a save is accepted exactly when the typed name has a non-white-space character and both dates are filled in |
| `Controller.EventApi.GetAll` | arvindraju-tadi-eventlist/eventApi.js:5-9 | one list request is sent and the backend's list is returned |
| `Controller.EventApi.Add` | arvindraju-tadi-eventlist/eventApi.js:12-22 | one create request with the new fields is sent and the backend's answer is returned |
| `Controller.EventApi.Edit` | arvindraju-tadi-eventlist/eventApi.js:24-32 | one update request is sent; nothing is returned |
| `Controller.EventApi.DeleteById` | arvindraju-tadi-eventlist/eventApi.js:35-39 | one delete request is sent; nothing is returned |
| `Controller.EventController.constructor` | arvindraju-tadi-eventlist/index.js:75-80 | the controller is wired to the given store and view (and the backend) |
| `Controller.EventController.Init` | arvindraju-tadi-eventlist/index.js:82-91 | after the list request, the store is the listed events and the table is rendered from them |
| `Controller.EventController.AddEventClicked` | arvindraju-tadi-eventlist/index.js:94 | a draft row is appended |
| `Controller.EventController.EventActionClicked` | arvindraju-tadi-eventlist/index.js:98-110 | a click does exactly the routed step: by button class, and for save and discard by whether the row id is `event-new` |
| `Controller.EventController.SaveNewEvent` | arvindraju-tadi-eventlist/index.js:113-129 | a rejected save changes nothing; an accepted one sends the create, appends the answer and shows it in the row |
| `Controller.EventController.EditEvent` | arvindraju-tadi-eventlist/index.js:131-151 | the row enters editing with exactly its shown fields stashed |
| `Controller.EventController.UpdateEvent` | arvindraju-tadi-eventlist/index.js:153-174 | a rejected save changes nothing; an accepted one sends the update, maps the store and shows the fields |
| `Controller.EventController.DiscardEdit` | arvindraju-tadi-eventlist/index.js:176-179 | the row shows its stashed fields again |
| `Controller.EventController.DeleteEvent` | arvindraju-tadi-eventlist/index.js:181-186 | sends the delete, filters the store by the read-back id and removes the row with the rebuilt id |
| `Controller.EventController.UpdateRowToDisplayMode` | arvindraju-tadi-eventlist/index.js:188-198 | only the given row changes: it shows the fields, keeping its id |
| `ControllerProperties.RejectedSaveChangesNothing` | arvindraju-tadi-eventlist/index.js:121-124 | a save with an empty trimmed name, start or end sends nothing and changes neither store nor rows |
| `ControllerProperties.SaveRouting` | arvindraju-tadi-eventlist/index.js:101-102 | an accepted save sends one request: a create exactly on the draft row, an update exactly on any other |
| `ControllerProperties.CreateAppendsSaved` | arvindraju-tadi-eventlist/index.js:126-128 | creating sends exactly the submitted fields, appends the answer (one more record with its id) and changes only that row, which shows the answer under the unchanged id `event-new` |
| `ControllerProperties.RekeyedCreateDiffersOnlyInRowId` | arvindraju-tadi-eventlist/index.js:126-128 | the re-keyed create differs from the create as written only in the saved row's id, which becomes `event-<saved id>` |
| `ControllerProperties.RekeyedAgreesElsewhere` | arvindraju-tadi-eventlist/index.js:98-110 | every click other than a save on the draft row is the same with or without re-keying |
| `ControllerProperties.EditThenDiscardRestores` | arvindraju-tadi-eventlist/index.js:139 | edit stashes exactly the shown fields, and discard right after restores the whole screen |
| `ControllerProperties.DiscardOnDraftKeyedRowRemoves` | arvindraju-tadi-eventlist/index.js:104 | discard on a draft or edited row keyed `event-new`, when no other row has that id, removes exactly that row (an edited one is not restored) |
| `ControllerProperties.UpdateReplacesMatching` | arvindraju-tadi-eventlist/index.js:153-174 | an accepted update keeps the store's length, replaces exactly the records with the read-back id, and shows the submitted fields |
| `ControllerProperties.UpdateOfNumericIdMissesStore` | arvindraju-tadi-eventlist/index.js:168-171 | on the row of a positive numeric id, the update is sent for a string id and no numeric-id record changes |
| `ControllerProperties.DeleteRemovesRowAndRecords` | arvindraju-tadi-eventlist/index.js:181-186 | deleting the row of a dash-free string id drops exactly the records with that id and exactly that row |
| `ControllerProperties.DeleteOfNumericIdKeepsRecord` | arvindraju-tadi-eventlist/index.js:181-186 | deleting the row of a positive numeric id removes the row but keeps every numeric-id record in the store |
| `ControllerProperties.DeleteOfDashedIdMissesRow` | arvindraju-tadi-eventlist/index.js:182 | for an id with a dash the delete is sent for another id and the clicked row stays |
| `ControllerProperties.ClickKeepsDraftRowsKeyed` | arvindraju-tadi-eventlist/index.js:98-110 | every click keeps each draft row under `event-new` |
| `ControllerProperties.RekeyedClickKeepsDraftRowsKeyed` | arvindraju-tadi-eventlist/index.js:98-110 | with the re-keyed create too, every click keeps each draft row under `event-new` |
| `ControllerProperties.AddAndLoadKeepDraftRowsKeyed` | arvindraju-tadi-eventlist/index.js:94 | the add button's row and a freshly rendered table keep draft rows under `event-new` |
| `ControllerProperties.LoadShowsEveryEvent` | arvindraju-tadi-eventlist/index.js:82-91 | after loading, the store is the listed events and the table has one display row per event, in order |
| `ControllerProperties.AsWrittenEditedSaveCreatesAgain` | arvindraju-tadi-eventlist/index.js:128 | as written, editing a just-created row and saving sends a second create and stores a second record |
| `ControllerProperties.AsWrittenDiscardRemovesSavedRow` | arvindraju-tadi-eventlist/index.js:104 | as written, discarding the next draft removes the just-created row and keeps the draft |
| `ControllerProperties.SavedRowIsUpdatedLater` | arvindraju-tadi-eventlist/index.js:126-128 | with the row re-keyed, editing a just-created row and saving sends an update for its id |
| `ControllerProperties.DiscardAfterCreateRemovesDraft` | arvindraju-tadi-eventlist/index.js:104 | with the row re-keyed, discarding the next draft removes only that draft |
| `ControllerProperties.CreateThenDeleteRestoresStore` | arvindraju-tadi-eventlist/index.js:181-186 | with the row re-keyed, deleting a just-created row restores the store and removes only that row |

## Findings

| source | as written | input that shows it | evidently intended | confidence | as-written member | corrected member |
|---|---|---|---|---|---|---|
| arvindraju-tadi-eventlist/index.js:128 | after a create, `updateRowToDisplayMode` redraws the row but leaves its id `event-new` | click add, type `Standup`, `2024-02-01`, `2024-02-01`, save (backend answers `{id: "2", ...}`), then edit and save again: a second create is sent instead of an update of `"2"`; or click add again and discard: the saved row is removed and the new draft stays | the saved record replaces the draft in the view under its own row id `event-<id>` | high, not executed | `ControllerProperties.AsWrittenEditedSaveCreatesAgain` | `ControllerProperties.SavedRowIsUpdatedLater` |

The as-written step is `Controller.AfterSaveNew`, used by
`Controller.AfterClick` and by `Controller.EventController.SaveNewEvent`.
The corrected step is `Controller.AfterSaveNewRekeyed`, used by
`Controller.AfterClickRekeyed`; it also gives the row the id
`event-<saved id>`. `ControllerProperties.AsWrittenDiscardRemovesSavedRow`
and `ControllerProperties.DiscardAfterCreateRemovesDraft` show the same
defect and its fix through the discard button.

## Left out

- The HTML of the rows, `innerHTML`, `querySelector`, `appendChild`: a row is its id and its state.
- Typing into inputs: what a row's inputs hold at the time of a save is a parameter of the save.
- `alert`: a rejected save is modelled as "no change".
- `async`/`await` interleaving: each handler is one atomic step, so two in-flight requests never interleave.
- Listener registration and the module-level construction of the three singletons; the backend is an explicit field of the controller.
- `fetch`, HTTP and JSON: the backend is a log of requests; a list or create answer is a parameter. Failed requests are not modelled, since the code does not handle them.
- `JSON.stringify`/`JSON.parse` of the stash: the stash is the shown fields.
- ControllerProperties.EditThenDiscardRestores: holds for fields shown as plain text only. The code writes a field into a cell as HTML and stashes the cell's `textContent`, so a field holding markup or a character reference (a name `&lt;b&gt;` shows as `<b>`, is stashed as `<b>` and is redrawn as an empty element) is not restored as it was; the model has no HTML and does not capture this.
- No class method performs the re-keyed create: the controller class follows the code, and the re-keyed variant exists only as step functions.
- Aliasing: `setEvents` and `getEvents` share one array with the caller in the code; the model copies a value.
- `getElementById` searches the whole page; the table body's own id `event-list` is not among the modelled rows. An event with id `"list"` would make the delete path find the table body.
- Ids: JavaScript numbers are mathematical integers here. Fractional numbers, `NaN`, exponent notation and non-string, non-number ids are not modelled.
- Event fields are strings. A record from the backend without a field would show `undefined`; that is not modelled.
- A click on a button a row does not have cannot happen in the page, so the click step requires the button to be present.
