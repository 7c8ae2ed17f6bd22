/** What the controller's handlers promise, stated on the step functions of
    `Controller` and proved for every screen and every input. */
module ControllerProperties {
  import opened JsValues
  import opened Strings
  import opened RowIds
  import opened EventStore
  import opened TableView
  import opened Controller

  /** No other row has the id of row `i`. */
  predicate UniqueRowId(rows: seq<Row>, i: nat)
    requires i < |rows|
  {
    forall j :: 0 <= j < |rows| && j != i ==> rows[j].rowId != rows[i].rowId
  }

  /** A save with an empty trimmed name, start or end sends no request and
      changes neither the store nor the rows. */
  lemma RejectedSaveChangesNothing(s: Screen, i: nat, typed: Fields, response: Event)
    requires i < |s.rows| && Shows(s.rows[i].state, SaveButton) && Keyed(s.rows[i])
    requires !Complete(Submitted(typed))
    ensures AfterClick(s, i, SaveButton, typed, response) == s
  {
  }

  /** An accepted save sends exactly one request: a create exactly when the
      row is the draft row, an update exactly when it is not. */
  lemma SaveRouting(s: Screen, i: nat, typed: Fields, response: Event)
    requires i < |s.rows| && Shows(s.rows[i].state, SaveButton) && Keyed(s.rows[i])
    requires Complete(Submitted(typed))
    ensures var s' := AfterClick(s, i, SaveButton, typed, response);
      && |s'.sent| == |s.sent| + 1 && s'.sent[..|s.sent|] == s.sent
      && (s'.sent[|s.sent|].AddRequest? <==> s.rows[i].rowId == DraftRowId)
      && (s'.sent[|s.sent|].EditRequest? <==> s.rows[i].rowId != DraftRowId)
  {
  }

  /** Saving a filled-in draft row sends one create request with exactly the
      submitted fields, appends the backend's record to the store (one more
      record with its id), and changes only that row, which then shows the
      record but keeps the draft row id. */
  lemma CreateAppendsSaved(s: Screen, i: nat, typed: Fields, response: Event)
    requires i < |s.rows| && s.rows[i].state == Draft && Keyed(s.rows[i])
    requires Complete(Submitted(typed))
    ensures var s' := AfterClick(s, i, SaveButton, typed, response);
      && s'.sent == s.sent + [AddRequest(Submitted(typed))]
      && s'.store == s.store + [response]
      && CountId(s'.store, response.id) == CountId(s.store, response.id) + 1
      && |s'.rows| == |s.rows|
      && s'.rows[i] == Row(DraftRowId, Display(FieldsOf(response)))
      && forall j :: 0 <= j < |s.rows| && j != i ==> s'.rows[j] == s.rows[j]
  {
    CountIdAppend(s.store, response, response.id);
  }

  /** The re-keyed create differs from the create as written only in the id
      of the saved row, which becomes the row id of the saved record. */
  lemma RekeyedCreateDiffersOnlyInRowId(s: Screen, i: nat, typed: Fields, response: Event)
    requires i < |s.rows| && s.rows[i].state == Draft && Keyed(s.rows[i])
    requires Complete(Submitted(typed))
    ensures var a := AfterClick(s, i, SaveButton, typed, response);
      var c := AfterClickRekeyed(s, i, SaveButton, typed, response);
      && c.store == a.store && c.sent == a.sent
      && c.rows == a.rows[i := Row(EncodeRowId(response.id), a.rows[i].state)]
  {
  }

  /** With the re-keyed create, every other click is the one as written. */
  lemma RekeyedAgreesElsewhere(s: Screen, i: nat, t: Target, typed: Fields, response: Event)
    requires i < |s.rows| && Shows(s.rows[i].state, t) && Keyed(s.rows[i])
    requires t != SaveButton || s.rows[i].rowId != DraftRowId
    ensures AfterClickRekeyed(s, i, t, typed, response) == AfterClick(s, i, t, typed, response)
  {
  }

  /** Edit stashes exactly the shown fields; discarding right after brings
      the row, and so the whole screen, back as it was. */
  lemma EditThenDiscardRestores(s: Screen, i: nat, typed: Fields, response: Event)
    requires i < |s.rows| && s.rows[i].state.Display? && s.rows[i].rowId != DraftRowId
    ensures var s1 := AfterClick(s, i, EditButton, typed, response);
      && s1.rows[i] == Row(s.rows[i].rowId, Editing(s.rows[i].state.cells))
      && s1.store == s.store && s1.sent == s.sent
      && AfterClick(s1, i, DiscardButton, typed, response) == s
  {
    var s1 := AfterClick(s, i, EditButton, typed, response);
    assert s1.rows[i := s.rows[i]] == s.rows;
  }

  /** Discard on a row with the draft row id removes the first row with that
      id, which is that row when no other row carries the id: the draft row
      itself, or an edited row whose record has a falsy id or the id `"new"`
      (its stash is not restored). */
  lemma DiscardOnDraftKeyedRowRemoves(s: Screen, i: nat, typed: Fields, response: Event)
    requires i < |s.rows| && s.rows[i].rowId == DraftRowId
    requires s.rows[i].state.Draft? || s.rows[i].state.Editing?
    requires UniqueRowId(s.rows, i)
    ensures AfterClick(s, i, DiscardButton, typed, response).rows == s.rows[..i] + s.rows[i + 1..]
  {
    RowRemovedUnique(s.rows, i);
  }

  /** An accepted save on an edited row sends one update request, keeps the
      store's length, replaces every record whose id is strictly equal to
      the id read back from the row id and leaves every other record where it
      was, and shows the submitted fields in that row. */
  lemma UpdateReplacesMatching(s: Screen, i: nat, typed: Fields, response: Event)
    requires i < |s.rows| && s.rows[i].state.Editing? && s.rows[i].rowId != DraftRowId
    requires Complete(Submitted(typed))
    ensures var id := DecodeRowId(s.rows[i].rowId);
      var f := Submitted(typed);
      var updated := Event(id, f.name, f.start, f.end);
      var s' := AfterClick(s, i, SaveButton, typed, response);
      && s'.sent == s.sent + [EditRequest(id, updated)]
      && |s'.store| == |s.store|
      && (forall k :: 0 <= k < |s.store| ==>
            s'.store[k] == if s.store[k].id == id then updated else s.store[k])
      && s'.rows == s.rows[i := Row(s.rows[i].rowId, Display(f))]
  {
    var id := DecodeRowId(s.rows[i].rowId);
    var f := Submitted(typed);
    var updated := Event(id, f.name, f.start, f.end);
    forall k | 0 <= k < |s.store|
      ensures Replaced(s.store, id, updated)[k] == if s.store[k].id == id then updated else s.store[k]
    {
      ReplacedAt(s.store, id, updated, k);
    }
  }

  /** An edited row whose record has a positive numeric id is updated in the
      view, but the update is sent for the string of its digits and no
      record with a numeric id changes in the store. */
  lemma UpdateOfNumericIdMissesStore(s: Screen, i: nat, n: int, typed: Fields, response: Event)
    requires i < |s.rows| && s.rows[i].state.Editing? && s.rows[i].rowId == EncodeRowId(Num(n))
    requires n > 0 && Complete(Submitted(typed))
    ensures var f := Submitted(typed);
      var s' := AfterClick(s, i, SaveButton, typed, response);
      && s'.sent == s.sent + [EditRequest(Str(Digits(n)), Event(Str(Digits(n)), f.name, f.start, f.end))]
      && s'.rows[i].state == Display(Submitted(typed))
      && forall k :: 0 <= k < |s.store| && s.store[k].id.Num? ==> s'.store[k] == s.store[k]
  {
    NumberIdDecodesToString(n);
    EncodeIsDraftIff(Num(n));
    var f := Submitted(typed);
    var updated := Event(Str(Digits(n)), f.name, f.start, f.end);
    forall k | 0 <= k < |s.store| && s.store[k].id.Num?
      ensures Replaced(s.store, Str(Digits(n)), updated)[k] == s.store[k]
    {
      ReplacedAt(s.store, Str(Digits(n)), updated, k);
    }
  }

  /** Deleting the row of a record with a non-empty string id without a
      dash sends one delete request for that id, drops exactly the store's
      records with that id, and, the row id being unique, drops exactly that
      row. */
  lemma DeleteRemovesRowAndRecords(s: Screen, i: nat, x: string, typed: Fields, response: Event)
    requires i < |s.rows| && s.rows[i].state.Display? && s.rows[i].rowId == EncodeRowId(Str(x))
    requires x != "" && Dash !in x && UniqueRowId(s.rows, i)
    ensures var s' := AfterClick(s, i, DeleteButton, typed, response);
      && s'.sent == s.sent + [DeleteRequest(Str(x))]
      && s'.store == Without(s.store, Str(x))
      && CountId(s'.store, Str(x)) == 0
      && s'.rows == s.rows[..i] + s.rows[i + 1..]
  {
    RowIdRoundTrip(x);
    RowRemovedUnique(s.rows, i);
    var r := Without(s.store, Str(x));
    forall k | 0 <= k < |r| ensures r[k].id != Str(x) {
      WithoutMembers(s.store, Str(x), r[k]);
    }
    CountIdZeroIff(r, Str(x));
  }

  /** Deleting the row of a record with a positive numeric id removes the
      row from the view, but the store filter compares the record's number
      with a string, so every record with a numeric id stays in the store. */
  lemma DeleteOfNumericIdKeepsRecord(s: Screen, i: nat, n: int, typed: Fields, response: Event)
    requires i < |s.rows| && s.rows[i].state.Display? && s.rows[i].rowId == EncodeRowId(Num(n))
    requires n > 0 && UniqueRowId(s.rows, i)
    ensures var s' := AfterClick(s, i, DeleteButton, typed, response);
      && s'.sent == s.sent + [DeleteRequest(Str(Digits(n)))]
      && s'.rows == s.rows[..i] + s.rows[i + 1..]
      && forall k :: 0 <= k < |s.store| && s.store[k].id.Num? ==> s.store[k] in s'.store
  {
    NumberIdDecodesToString(n);
    assert RowKey(Str(Digits(n))) == s.rows[i].rowId;
    RowRemovedUnique(s.rows, i);
    forall k | 0 <= k < |s.store| && s.store[k].id.Num?
      ensures s.store[k] in Without(s.store, Str(Digits(n)))
    {
      WithoutMembers(s.store, Str(Digits(n)), s.store[k]);
    }
  }

  /** Deleting the row of a record whose string id contains a dash sends the
      delete for the part before the first dash, a different id, and leaves
      the clicked row in the table. */
  lemma DeleteOfDashedIdMissesRow(s: Screen, i: nat, x: string, typed: Fields, response: Event)
    requires i < |s.rows| && s.rows[i].state.Display? && s.rows[i].rowId == EncodeRowId(Str(x))
    requires Dash in x
    ensures var s' := AfterClick(s, i, DeleteButton, typed, response);
      && s'.sent == s.sent + [DeleteRequest(Str(Split(x)[0]))]
      && Split(x)[0] != x
      && s.rows[i] in s'.rows
  {
    DecodeRowKey(Str(x));
    FirstPieceIsWholeIff(x);
    RowIdRoundTrip(x);
    RowRemovedKeepsOthers(s.rows, RowKey(Str(Split(x)[0])), i);
  }

  /** Every click keeps each draft row under the draft row id, which is
      what lets the click listener tell the draft row by its id alone. */
  lemma ClickKeepsDraftRowsKeyed(s: Screen, i: nat, t: Target, typed: Fields, response: Event)
    requires AllKeyed(s.rows) && i < |s.rows| && Shows(s.rows[i].state, t)
    ensures AllKeyed(AfterClick(s, i, t, typed, response).rows)
  {
    var row := s.rows[i];
    match t
    case SaveButton =>
      var r := AfterClick(s, i, t, typed, response).rows;
      forall j | 0 <= j < |r| ensures Keyed(r[j]) {
        if j != i {
          assert r[j] == s.rows[j];
        }
      }
    case DiscardButton =>
      if row.rowId == DraftRowId {
        RowRemovedKeyed(s.rows, RowKey(Str(Sentinel)));
      } else {
        var r := AfterClick(s, i, t, typed, response).rows;
        forall j | 0 <= j < |r| ensures Keyed(r[j]) {
          if j != i {
            assert r[j] == s.rows[j];
          }
        }
      }
    case EditButton =>
      var r := AfterClick(s, i, t, typed, response).rows;
      forall j | 0 <= j < |r| ensures Keyed(r[j]) {
        if j != i {
          assert r[j] == s.rows[j];
        }
      }
    case DeleteButton =>
      RowRemovedKeyed(s.rows, RowKey(DecodeRowId(row.rowId)));
    case Elsewhere =>
  }

  /** The re-keyed create keeps draft rows keyed too: the saved row is no
      longer a draft row, whatever id it is given. */
  lemma RekeyedClickKeepsDraftRowsKeyed(s: Screen, i: nat, t: Target, typed: Fields, response: Event)
    requires AllKeyed(s.rows) && i < |s.rows| && Shows(s.rows[i].state, t)
    ensures AllKeyed(AfterClickRekeyed(s, i, t, typed, response).rows)
  {
    if t == SaveButton && s.rows[i].rowId == DraftRowId {
      var r := AfterClickRekeyed(s, i, t, typed, response).rows;
      forall j | 0 <= j < |r| ensures Keyed(r[j]) {
        if j != i {
          assert r[j] == s.rows[j];
        }
      }
    } else {
      ClickKeepsDraftRowsKeyed(s, i, t, typed, response);
    }
  }

  /** The add button's draft row and a freshly rendered table are keyed. */
  lemma AddAndLoadKeepDraftRowsKeyed(s: Screen, listed: seq<Event>)
    requires AllKeyed(s.rows)
    ensures AllKeyed(AfterAddClick(s).rows)
    ensures AllKeyed(AfterLoad(s, listed).rows)
  {
    FalsyIdIsDraft(Undefined);
    RenderedRows(listed);
    var r := AfterAddClick(s).rows;
    assert r[|s.rows|] == Row(DraftRowId, Draft);
    forall j | 0 <= j < |r| ensures Keyed(r[j]) {
      if j < |s.rows| {
        assert r[j] == s.rows[j];
      }
    }
  }

  /** Loading shows one display row per listed event, in order, and the
      store holds exactly the listed events. */
  lemma LoadShowsEveryEvent(s: Screen, listed: seq<Event>)
    ensures var s' := AfterLoad(s, listed);
      && s'.store == listed
      && |s'.rows| == |listed|
      && forall k :: 0 <= k < |listed| ==>
           s'.rows[k] == Row(EncodeRowId(listed[k].id), Display(FieldsOf(listed[k])))
  {
    RenderedRows(listed);
  }

  /** As written, a saved draft row keeps the draft row id; editing it and
      saving again is routed to create, so a second record is created
      instead of the first being updated. */
  lemma AsWrittenEditedSaveCreatesAgain(s: Screen, i: nat, typed: Fields, response: Event, typed2: Fields, response2: Event)
    requires i < |s.rows| && s.rows[i].state == Draft && Keyed(s.rows[i])
    requires Complete(Submitted(typed)) && Complete(Submitted(typed2))
    ensures var s1 := AfterClick(s, i, SaveButton, typed, response);
      && s1.rows[i] == Row(DraftRowId, Display(FieldsOf(response)))
      && var s2 := AfterClick(s1, i, EditButton, typed, response);
         var s3 := AfterClick(s2, i, SaveButton, typed2, response2);
         && s3.sent == s.sent + [AddRequest(Submitted(typed)), AddRequest(Submitted(typed2))]
         && s3.store == s.store + [response, response2]
  {
  }

  /** With the row re-keyed on create, a record that the backend gives a
      string id (non-empty, without a dash, not `"new"`) is updated, not
      created again, when its row is edited and saved: one create and one
      update request, and the store keeps one record more than before. */
  lemma SavedRowIsUpdatedLater(s: Screen, i: nat, typed: Fields, response: Event, typed2: Fields, response2: Event, x: string)
    requires i < |s.rows| && s.rows[i].state == Draft && Keyed(s.rows[i])
    requires Complete(Submitted(typed)) && Complete(Submitted(typed2))
    requires response.id == Str(x) && x != "" && x != Sentinel && Dash !in x
    ensures var s1 := AfterClickRekeyed(s, i, SaveButton, typed, response);
      var s2 := AfterClickRekeyed(s1, i, EditButton, typed, response);
      var s3 := AfterClickRekeyed(s2, i, SaveButton, typed2, response2);
      var f := Submitted(typed2);
      var updated := Event(Str(x), f.name, f.start, f.end);
      && s3.sent == s.sent + [AddRequest(Submitted(typed)), EditRequest(Str(x), updated)]
      && s3.store == Replaced(s.store + [response], Str(x), updated)
      && |s3.store| == |s.store| + 1
      && s3.rows[i] == Row(EncodeRowId(Str(x)), Display(f))
  {
    EncodeIsDraftIff(Str(x));
    RowIdRoundTrip(x);
  }

  /** Removing the first row of `rows + [extra]` that carries row `i`'s id,
      when no earlier row carries it, leaves the other rows and `extra`. */
  lemma RemoveFirstOfExtended(rows: seq<Row>, i: nat, extra: Row)
    requires i < |rows|
    requires forall j :: 0 <= j < i ==> rows[j].rowId != rows[i].rowId
    ensures RowRemoved(rows + [extra], rows[i].rowId) == rows[..i] + rows[i + 1..] + [extra]
  {
    var r := rows + [extra];
    assert forall j :: 0 <= j <= i ==> r[j] == rows[j];
    RowRemovedFirst(r, i);
    assert r[..i] == rows[..i];
    assert r[i + 1..] == rows[i + 1..] + [extra];
  }

  /** As written, once a saved draft row keeps the draft row id, discarding
      the next draft row removes the saved row instead (the first row with
      that id), and the new draft stays. */
  lemma AsWrittenDiscardRemovesSavedRow(s: Screen, i: nat, typed: Fields, response: Event)
    requires i < |s.rows| && s.rows[i].state == Draft && Keyed(s.rows[i])
    requires forall j :: 0 <= j < i ==> s.rows[j].rowId != DraftRowId
    requires Complete(Submitted(typed))
    ensures var s1 := AfterAddClick(AfterSaveNew(s, i, typed, response));
      var d := |s1.rows| - 1;
      && s1.rows[d] == Row(DraftRowId, Draft)
      && var s2 := AfterClick(s1, d, DiscardButton, typed, response);
         && s2.rows == s.rows[..i] + s.rows[i + 1..] + [Row(DraftRowId, Draft)]
         && s2.store == s.store + [response]
  {
    var draft := Row(DraftRowId, Draft);
    var s0 := AfterSaveNew(s, i, typed, response);
    var s1 := AfterAddClick(s0);
    assert s1.rows == s0.rows + [draft] by {
      FalsyIdIsDraft(Undefined);
    }
    assert RowRemoved(s1.rows, DraftRowId) == s.rows[..i] + s.rows[i + 1..] + [draft] by {
      assert s0.rows == s.rows[i := Row(DraftRowId, Display(FieldsOf(response)))];
      assert s0.rows[..i] == s.rows[..i] && s0.rows[i + 1..] == s.rows[i + 1..];
      RemoveFirstOfExtended(s0.rows, i, draft);
    }
    assert AfterClick(s1, |s1.rows| - 1, DiscardButton, typed, response).rows == RowRemoved(s1.rows, DraftRowId) by {
      assert RowKey(Str(Sentinel)) == DraftRowId;
    }
  }

  /** With the row re-keyed on create, discarding the next draft row removes
      that draft and leaves the saved row alone. */
  lemma DiscardAfterCreateRemovesDraft(s: Screen, i: nat, typed: Fields, response: Event, x: string)
    requires i < |s.rows| && s.rows[i].state == Draft && Keyed(s.rows[i])
    requires forall j :: 0 <= j < |s.rows| && j != i ==> s.rows[j].rowId != DraftRowId
    requires Complete(Submitted(typed))
    requires response.id == Str(x) && x != "" && x != Sentinel
    ensures var s1 := AfterSaveNewRekeyed(s, i, typed, response);
      var s2 := AfterAddClick(s1);
      var s3 := AfterClickRekeyed(s2, |s2.rows| - 1, DiscardButton, typed, response);
      s3 == s1
  {
    FalsyIdIsDraft(Undefined);
    EncodeIsDraftIff(Str(x));
    var s1 := AfterSaveNewRekeyed(s, i, typed, response);
    var s2 := AfterAddClick(s1);
    var d := |s1.rows|;
    assert s2.rows == s1.rows + [Row(DraftRowId, Draft)];
    assert forall j :: 0 <= j < d ==> s2.rows[j].rowId != DraftRowId by {
      forall j | 0 <= j < d ensures s2.rows[j].rowId != DraftRowId {
        assert s2.rows[j] == s1.rows[j];
        if j != i {
          assert s1.rows[j] == s.rows[j];
        }
      }
    }
    RowRemovedFirst(s2.rows, d);
    assert s2.rows[..d] + s2.rows[d + 1..] == s1.rows;
  }

  /** With the row re-keyed on create, deleting the saved row right away
      undoes the create: the store is as before (no record had the new id)
      and the row is gone (no other row had its id). */
  lemma CreateThenDeleteRestoresStore(s: Screen, i: nat, typed: Fields, response: Event, x: string)
    requires i < |s.rows| && s.rows[i].state == Draft && Keyed(s.rows[i])
    requires Complete(Submitted(typed))
    requires response.id == Str(x) && x != "" && Dash !in x
    requires CountId(s.store, Str(x)) == 0
    requires forall j :: 0 <= j < |s.rows| && j != i ==> s.rows[j].rowId != EncodeRowId(Str(x))
    ensures var s1 := AfterClickRekeyed(s, i, SaveButton, typed, response);
      var s2 := AfterClickRekeyed(s1, i, DeleteButton, typed, response);
      && s2.store == s.store
      && s2.rows == s.rows[..i] + s.rows[i + 1..]
      && s2.sent == s.sent + [AddRequest(Submitted(typed)), DeleteRequest(Str(x))]
  {
    var s1 := AfterClickRekeyed(s, i, SaveButton, typed, response);
    assert s1.store == s.store + [response];
    assert Without(s1.store, Str(x)) == s.store by {
      WithoutConcat(s.store, [response], Str(x));
      CountIdZeroIff(s.store, Str(x));
      WithoutAbsent(s.store, Str(x));
      WithoutSingle(response, Str(x));
    }
    assert RowRemoved(s1.rows, s1.rows[i].rowId) == s.rows[..i] + s.rows[i + 1..] by {
      RowRemovedUnique(s1.rows, i);
      assert s1.rows[..i] == s.rows[..i] && s1.rows[i + 1..] == s.rows[i + 1..];
    }
    RowIdRoundTrip(x);
  }
}
