/** The DOM id of a table row: `event-` followed by the event's id, or the
    sentinel `event-new` for the draft row, and the way the controller reads
    the id back out of it. */
module RowIds {
  import opened JsValues
  import opened Strings

  const Prefix: string := "event-"
  const Sentinel: string := "new"
  const DraftRowId: string := "event-new"

  /** `event.id || "new"`: a falsy id is replaced by the sentinel. */
  function OrNew(id: Id): (r: Id)
    ensures Truthy(r)
    ensures Truthy(id) ==> r == id
  {
    if Truthy(id) then id else Str(Sentinel)
  }

  /** `` `event-${id}` ``: the DOM id that `removeEvent(id)` of the view looks up. */
  function RowKey(id: Id): string {
    Prefix + Text(id)
  }

  /** `` `event-${event.id || "new"}` ``: the DOM id a freshly added row gets. */
  function EncodeRowId(id: Id): string {
    RowKey(OrNew(id))
  }

  /** `rowId.split("-")[1]`; indexing past the last piece gives `undefined`.
      Whatever the row id, the result is a string or `undefined`, never a
      number. */
  function DecodeRowId(rowId: string): (r: Id)
    ensures r.Str? || r == Undefined
  {
    var parts := Split(rowId);
    if |parts| > 1 then Str(parts[1]) else Undefined
  }

  /** Reading the id back from `event-<text>` gives the text up to its first
      dash, as a string. */
  lemma DecodeRowKey(id: Id)
    ensures DecodeRowId(RowKey(id)) == Str(Split(Text(id))[0])
  {
    assert Prefix == "event" + [Dash];
    assert RowKey(id) == "event" + [Dash] + Text(id);
    SplitAfterWord("event", Text(id));
  }

  /** A non-empty string id survives the encode/decode round trip exactly
      when it contains no dash; only then does the key that the delete path
      rebuilds from the decoded id name the row again. */
  lemma RowIdRoundTrip(s: string)
    requires s != ""
    ensures DecodeRowId(EncodeRowId(Str(s))) == Str(s) <==> Dash !in s
    ensures RowKey(DecodeRowId(EncodeRowId(Str(s)))) == EncodeRowId(Str(s)) <==> Dash !in s
  {
    DecodeRowKey(Str(s));
    FirstPieceIsWholeIff(s);
    var d := Split(s)[0];
    if RowKey(Str(d)) == RowKey(Str(s)) {
      assert d == RowKey(Str(d))[|Prefix|..];
    }
  }

  /** A falsy id (no id yet, `null`, `0` or `""`) is given the draft row id,
      and reading it back yields the string `"new"`. */
  lemma FalsyIdIsDraft(id: Id)
    requires !Truthy(id)
    ensures EncodeRowId(id) == DraftRowId
    ensures DecodeRowId(EncodeRowId(id)) == Str(Sentinel)
  {
    DecodeRowKey(Str(Sentinel));
    SplitNoDash(Sentinel);
  }

  /** A row gets the draft row id exactly when its id is falsy or is the
      string `"new"` itself: a saved event whose id is `"new"` cannot be told
      apart from the draft. */
  lemma EncodeIsDraftIff(id: Id)
    ensures EncodeRowId(id) == DraftRowId <==> !Truthy(id) || id == Str(Sentinel)
  {
    if EncodeRowId(id) == DraftRowId {
      var t := Text(OrNew(id));
      assert t == EncodeRowId(id)[|Prefix|..];
      assert t == Sentinel;
      if id.Num? && Truthy(id) {
        NumberTextIsNumeral(id.n);
        assert false;
      }
    }
  }

  /** A numeric id does not come back as itself: the controller reads back
      the string of its digits (`1` gives `"1"`, which is not `=== 1`), and a
      negative id gives the empty string, cut at its minus sign. */
  lemma NumberIdDecodesToString(n: int)
    requires n != 0
    ensures n > 0 ==> DecodeRowId(EncodeRowId(Num(n))) == Str(Digits(n))
    ensures n < 0 ==> DecodeRowId(EncodeRowId(Num(n))) == Str("")
    ensures DecodeRowId(EncodeRowId(Num(n))) != Num(n)
  {
    DecodeRowKey(Num(n));
    var t := Text(Num(n));
    NumberTextIsNumeral(n);
    if n > 0 {
      assert Dash !in t by {
        forall k | 0 <= k < |t| ensures t[k] != Dash {
          assert IsDigit(t[k]);
        }
      }
      SplitNoDash(t);
    } else {
      assert t == [Dash] + Digits(-n);
      SplitAfterWord("", Digits(-n));
    }
  }

  /** A number and the string of its digits get the same row id, so two
      events `{id: 1}` and `{id: "1"}` share one. */
  lemma NumberAndItsTextShareRowId(n: int)
    requires n != 0
    ensures Num(n) != Str(Text(Num(n)))
    ensures EncodeRowId(Num(n)) == EncodeRowId(Str(Text(Num(n))))
  {
    NumberTextIsNumeral(n);
  }
}
