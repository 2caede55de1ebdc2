/** The state of the deck list page (src/pages/Decks.jsx) and its event
    handlers. Each remote call is a parameter holding the answer the
    hosted backend gives; `window.confirm` is a boolean parameter. */
module DecksPage {
  import opened Common
  import opened Seqs
  import opened Text
  import opened JsValue
  import opened Decks

  const NotSetUp: string := "Decks are not set up yet. Please contact the developer."
  const CouldNotLoad: string := "Could not load decks. Please try again later."
  const MissingTable: string := "Could not find the table 'public.decks'"

  /** `err.message || fallback`. */
  function ErrorText(message: string, fallback: string): (r: string)
    ensures Str(r) == Or(Str(message), Str(fallback))
  {
    if message == "" then fallback else message
  }

  /** The message the initial load shows for a failed select. */
  function LoadErrorText(message: string): (r: string)
    ensures r == NotSetUp <==> exists i :: OccursAt(message, MissingTable, i)
    ensures r == NotSetUp || r == CouldNotLoad
  {
    ContainsIffOccurs(message, MissingTable);
    if Contains(message, MissingTable) then NotSetUp else CouldNotLoad
  }

  /** The selection holds each identifier once, and only identifiers of
      decks in `decks`. */
  predicate Selectable(selected: seq<string>, decks: seq<Deck>) {
    NoDup(selected) && forall i :: 0 <= i < |selected| ==> selected[i] in Ids(decks)
  }

  /** The `forEach`/`push` loop of select-all, pushing each identifier of
      `ids` that the list does not hold yet. */
  method PushMissing(acc: seq<string>, ids: seq<string>) returns (r: seq<string>)
    ensures r == AppendMissing(acc, ids)
  {
    r := acc;
    for i := 0 to |ids|
      invariant AppendMissing(r, ids[i..]) == AppendMissing(acc, ids)
    {
      AppendMissingStep(r, ids, i);
      if ids[i] !in r {
        r := r + [ids[i]];
      }
    }
    assert ids[|ids|..] == [];
  }

  /** One step of the select-all loop. */
  lemma AppendMissingStep(acc: seq<string>, ids: seq<string>, i: nat)
    requires i < |ids|
    ensures AppendMissing(acc, ids[i..])
            == AppendMissing(if ids[i] in acc then acc else acc + [ids[i]], ids[i + 1..])
  {
    assert ids[i..][0] == ids[i] && ids[i..][1..] == ids[i + 1..];
  }

  /** A deck the search shows is a deck on the page. */
  lemma ShownIsOnPage(decks: seq<Deck>, search: string, deckId: string)
    requires deckId in Ids(FilteredDecks(decks, search))
    ensures deckId in Ids(decks)
  {
    var shown := FilteredDecks(decks, search);
    var k :| 0 <= k < |shown| && Ids(shown)[k] == deckId;
    IdsOfMembers(shown, decks);
    assert shown[k].id in Ids(decks);
  }

  lemma ToggleKeepsSelectable(selected: seq<string>, decks: seq<Deck>, deckId: string)
    requires Selectable(selected, decks) && deckId in Ids(decks)
    ensures Selectable(ToggleId(selected, deckId), decks)
  {
    var r := ToggleId(selected, deckId);
    forall i | 0 <= i < |r| ensures r[i] in Ids(decks) {
      if r[i] != deckId {
        assert r[i] in selected;
        var k :| 0 <= k < |selected| && selected[k] == r[i];
      }
    }
  }

  lemma SelectAllKeepsSelectable(selected: seq<string>, decks: seq<Deck>, shown: seq<Deck>)
    requires Selectable(selected, decks)
    requires forall i :: 0 <= i < |shown| ==> shown[i] in decks
    ensures Selectable(SelectAllVisible(selected, shown), decks)
  {
    SelectAllVisibleSpec(selected, shown);
    IdsOfMembers(shown, decks);
    var r := SelectAllVisible(selected, shown);
    forall i | 0 <= i < |r| ensures r[i] in Ids(decks) {
      if r[i] in selected {
        var k :| 0 <= k < |selected| && selected[k] == r[i];
      } else {
        var k :| 0 <= k < |shown| && Ids(shown)[k] == r[i];
        assert shown[k].id in Ids(decks);
      }
    }
  }

  /** A deck that a single delete does not remove keeps its identifier
      on the page. */
  lemma KeptId(decks: seq<Deck>, deckId: string, x: string)
    requires x in Ids(decks) && x != deckId
    ensures x in Ids(DecksWithout(decks, deckId))
  {
    var j :| 0 <= j < |decks| && Ids(decks)[j] == x;
    var kept := DecksWithout(decks, deckId);
    assert decks[j] in kept;
    var k :| 0 <= k < |kept| && kept[k] == decks[j];
    assert Ids(kept)[k] == x;
  }

  lemma DeleteKeepsSelectable(selected: seq<string>, decks: seq<Deck>, deckId: string)
    requires Selectable(selected, decks)
    ensures Selectable(Without(selected, deckId), DecksWithout(decks, deckId))
  {
    var rest := Without(selected, deckId);
    forall i | 0 <= i < |rest| ensures rest[i] in Ids(DecksWithout(decks, deckId)) {
      var k :| 0 <= k < |selected| && selected[k] == rest[i];
      KeptId(decks, deckId, rest[i]);
    }
  }

  lemma PrependKeepsSelectable(selected: seq<string>, decks: seq<Deck>, d: Deck)
    requires Selectable(selected, decks)
    ensures Selectable(selected, [d] + decks)
  {
    forall i | 0 <= i < |selected| ensures selected[i] in Ids([d] + decks) {
      var j :| 0 <= j < |decks| && Ids(decks)[j] == selected[i];
      assert Ids([d] + decks)[j + 1] == selected[i];
    }
  }

  class DeckList {
    var decks: seq<Deck>
    var selectedIds: seq<string>
    var search: string
    var error: Option<string>
    var deletingId: Option<string>
    var bulkLoading: bool
    var loading: bool

    /** The selection holds each identifier once, and only identifiers of
        decks on the page. */
    ghost predicate Valid()
      reads this
    {
      Selectable(selectedIds, decks)
    }

    /** The decks the search shows. */
    function Visible(): seq<Deck>
      reads this
    {
      FilteredDecks(decks, search)
    }

    /** Mount. Without a signed-in user nothing is fetched and the page
        stays loading; otherwise `reply` is the backend's answer to the
        select of the user's decks, newest first. */
    constructor (signedIn: bool, reply: Reply<seq<Deck>>)
      ensures Valid()
      ensures selectedIds == [] && search == "" && deletingId.None? && !bulkLoading
      ensures !signedIn ==> loading && decks == [] && error.None?
      ensures signedIn ==> !loading
      ensures signedIn && reply.Data? ==> decks == reply.data.GetOr([]) && error.None?
      ensures signedIn && reply.Failed? ==> decks == [] && error == Some(LoadErrorText(reply.message))
    {
      selectedIds := [];
      search := "";
      deletingId := None;
      bulkLoading := false;
      decks := [];
      error := None;
      loading := true;
      if signedIn {
        match reply {
          case Failed(message) =>
            error := Some(LoadErrorText(message));
          case Data(data) =>
            decks := data.GetOr([]);
        }
        loading := false;
      }
    }

    method SetSearch(text: string)
      modifies this
      ensures loading == old(loading)
      ensures search == text
      ensures decks == old(decks) && selectedIds == old(selectedIds) && error == old(error)
      ensures deletingId == old(deletingId) && bulkLoading == old(bulkLoading)
    {
      search := text;
    }

    /** The checkbox of a shown deck. */
    method ToggleSelectDeck(deckId: string)
      requires Valid()
      requires deckId in Ids(Visible())
      modifies this
      ensures loading == old(loading)
      ensures Valid()
      ensures selectedIds == ToggleId(old(selectedIds), deckId)
      ensures decks == old(decks) && search == old(search) && error == old(error)
      ensures deletingId == old(deletingId) && bulkLoading == old(bulkLoading)
    {
      ShownIsOnPage(decks, search, deckId);
      ToggleKeepsSelectable(selectedIds, decks, deckId);
      selectedIds := ToggleId(selectedIds, deckId);
    }

    /** The "Select all shown" checkbox. */
    method ToggleSelectAllVisible()
      requires Valid()
      modifies this
      ensures loading == old(loading)
      ensures Valid()
      ensures selectedIds == SelectAllVisible(old(selectedIds), old(Visible()))
      ensures decks == old(decks) && search == old(search) && error == old(error)
      ensures deletingId == old(deletingId) && bulkLoading == old(bulkLoading)
    {
      var shown := Visible();
      SelectAllKeepsSelectable(selectedIds, decks, shown);
      if AllVisibleSelected(shown, selectedIds) {
        selectedIds := Deselect(selectedIds, shown);
      } else {
        var newIds := PushMissing(selectedIds, Ids(shown));
        selectedIds := newIds;
      }
    }

    /** `handleDeleteDeck`: delete the deck's cards, then the deck. */
    method DeleteDeck(deckId: string, confirmed: bool, cardsDelete: Outcome, deckDelete: Outcome)
      requires Valid()
      modifies this
      ensures loading == old(loading)
      ensures Valid()
      ensures search == old(search) && bulkLoading == old(bulkLoading)
      ensures !confirmed ==> decks == old(decks) && selectedIds == old(selectedIds)
                             && error == old(error) && deletingId == old(deletingId)
      ensures confirmed ==> deletingId.None?
      ensures confirmed && cardsDelete.Refused? ==>
        decks == old(decks) && selectedIds == old(selectedIds) && error == Some(cardsDelete.message)
      ensures confirmed && cardsDelete.Done? && deckDelete.Refused? ==>
        decks == old(decks) && selectedIds == old(selectedIds) && error == Some(deckDelete.message)
      ensures confirmed && cardsDelete.Done? && deckDelete.Done? ==>
        decks == DecksWithout(old(decks), deckId) && selectedIds == Without(old(selectedIds), deckId)
        && error.None?
    {
      if !confirmed {
        return;
      }
      error := None;
      deletingId := Some(deckId);
      if cardsDelete.Refused? {
        error := Some(cardsDelete.message);
        deletingId := None;
        return;
      }
      if deckDelete.Refused? {
        error := Some(deckDelete.message);
        deletingId := None;
        return;
      }
      DeleteKeepsSelectable(selectedIds, decks, deckId);
      decks := DecksWithout(decks, deckId);
      selectedIds := Without(selectedIds, deckId);
      deletingId := None;
    }

    /** `handleBulkDelete`: delete the selected decks' cards, then the decks. */
    method BulkDelete(confirmed: bool, cardsDelete: Outcome, decksDelete: Outcome)
      requires Valid()
      modifies this
      ensures loading == old(loading)
      ensures Valid()
      ensures search == old(search) && deletingId == old(deletingId)
      ensures old(selectedIds) == [] || !confirmed ==>
        decks == old(decks) && selectedIds == old(selectedIds) && error == old(error)
        && bulkLoading == old(bulkLoading)
      ensures old(selectedIds) != [] && confirmed ==> !bulkLoading
      ensures old(selectedIds) != [] && confirmed && cardsDelete.Refused? ==>
        decks == old(decks) && selectedIds == old(selectedIds)
        && error == Some(ErrorText(cardsDelete.message, "Bulk delete failed."))
      ensures old(selectedIds) != [] && confirmed && cardsDelete.Done? && decksDelete.Refused? ==>
        decks == old(decks) && selectedIds == old(selectedIds)
        && error == Some(ErrorText(decksDelete.message, "Bulk delete failed."))
      ensures old(selectedIds) != [] && confirmed && cardsDelete.Done? && decksDelete.Done? ==>
        decks == DecksNotIn(old(decks), old(selectedIds)) && selectedIds == [] && error.None?
    {
      if |selectedIds| == 0 || !confirmed {
        return;
      }
      error := None;
      bulkLoading := true;
      if cardsDelete.Refused? {
        error := Some(ErrorText(cardsDelete.message, "Bulk delete failed."));
      } else if decksDelete.Refused? {
        error := Some(ErrorText(decksDelete.message, "Bulk delete failed."));
      } else {
        decks := DecksNotIn(decks, selectedIds);
        selectedIds := [];
      }
      bulkLoading := false;
    }

    /** `handleImportFile`. `parse` is what reading and `JSON.parse` give
        (`None` when no file was chosen), `deckInsert` the backend's answer
        to the deck insert and `cardsInsert` its answer to the card insert.
        The out-parameters are the rows actually sent. */
    method ImportFile(parse: Option<Result<Value, string>>, deckInsert: Result<Deck, string>, cardsInsert: Outcome)
      returns (deckSent: Option<DeckRow>, cardsSent: Option<seq<CardRow>>)
      requires Valid()
      modifies this
      ensures loading == old(loading)
      ensures Valid()
      ensures selectedIds == old(selectedIds) && search == old(search)
      ensures deletingId == old(deletingId) && bulkLoading == old(bulkLoading)
      ensures parse.None? ==> decks == old(decks) && error == old(error) && deckSent.None? && cardsSent.None?
      ensures parse.Some? && parse.value.Err? ==>
        decks == old(decks) && error == Some(ErrorText(parse.value.error, "Failed to import deck."))
        && deckSent.None? && cardsSent.None?
      ensures parse.Some? && parse.value.Ok? && ExtractImport(parse.value.value).Err? ==>
        decks == old(decks) && error == Some(ErrorText(ExtractImport(parse.value.value).error, "Failed to import deck."))
        && deckSent.None? && cardsSent.None?
      ensures parse.Some? && parse.value.Ok? && ExtractImport(parse.value.value).Ok? ==>
        var plan := ExtractImport(parse.value.value).value;
        && deckSent == Some(plan.deck)
        && (deckInsert.Err? ==>
              decks == old(decks) && cardsSent.None?
              && error == Some(ErrorText(deckInsert.error, "Failed to import deck.")))
        && (deckInsert.Ok? ==>
              var rows := CardRows(plan.cards, deckInsert.value.id);
              && (plan.cards == [] ==> cardsSent.None? && decks == [deckInsert.value] + old(decks) && error.None?)
              && (plan.cards != [] && rows.Err? ==>
                    cardsSent.None? && decks == old(decks)
                    && error == Some(ErrorText(rows.error, "Failed to import deck.")))
              && (plan.cards != [] && rows.Ok? ==>
                    && cardsSent == Some(rows.value)
                    && (cardsInsert.Refused? ==>
                          decks == old(decks) && error == Some(ErrorText(cardsInsert.message, "Failed to import deck.")))
                    && (cardsInsert.Done? ==> decks == [deckInsert.value] + old(decks) && error.None?)))
    {
      deckSent, cardsSent := None, None;
      if parse.None? {
        return;
      }
      error := None;
      if parse.value.Err? {
        error := Some(ErrorText(parse.value.error, "Failed to import deck."));
        return;
      }
      var extracted := ExtractImport(parse.value.value);
      if extracted.Err? {
        error := Some(ErrorText(extracted.error, "Failed to import deck."));
        return;
      }
      var plan := extracted.value;
      deckSent := Some(plan.deck);
      if deckInsert.Err? {
        error := Some(ErrorText(deckInsert.error, "Failed to import deck."));
        return;
      }
      var newDeck := deckInsert.value;
      if plan.cards != [] {
        var rows := CardRows(plan.cards, newDeck.id);
        if rows.Err? {
          error := Some(ErrorText(rows.error, "Failed to import deck."));
          return;
        }
        cardsSent := Some(rows.value);
        if cardsInsert.Refused? {
          error := Some(ErrorText(cardsInsert.message, "Failed to import deck."));
          return;
        }
      }
      PrependKeepsSelectable(selectedIds, decks, newDeck);
      decks := [newDeck] + decks;
    }

    /** `handleBulkExport`: one JSON file per selected deck, in list order;
        `fetch` gives the backend's answer to each deck's card select. The
        archive is returned for download only when every fetch succeeded. */
    method BulkExport(fetch: string -> Reply<seq<Card>>) returns (archive: Option<map<string, Value>>)
      requires Valid()
      modifies this
      ensures loading == old(loading)
      ensures Valid()
      ensures decks == old(decks) && selectedIds == old(selectedIds) && search == old(search)
      ensures deletingId == old(deletingId)
      ensures old(selectedIds) == [] ==> archive.None? && error == old(error) && bulkLoading == old(bulkLoading)
      ensures old(selectedIds) != [] ==>
        var r := AddEntries(map[], DecksIn(decks, selectedIds), fetch);
        && !bulkLoading
        && (r.Ok? ==> archive == Some(r.value) && error.None?)
        && (r.Err? ==> archive.None? && error == Some(ErrorText(r.error, "Bulk export failed.")))
    {
      archive := None;
      if |selectedIds| == 0 {
        return;
      }
      error := None;
      bulkLoading := true;
      var ds := DecksIn(decks, selectedIds);
      var zip: map<string, Value> := map[];
      var i := 0;
      var failed: Option<string> := None;
      while i < |ds| && failed.None?
        invariant 0 <= i <= |ds|
        invariant failed.None? ==> AddEntries(zip, ds[i..], fetch) == AddEntries(map[], ds, fetch)
        invariant failed.Some? ==> AddEntries(map[], ds, fetch) == Err(failed.value)
        decreases |ds| - i + (if failed.None? then 1 else 0)
      {
        assert ds[i..][0] == ds[i] && ds[i..][1..] == ds[i + 1..];
        var reply := fetch(ds[i].id);
        if reply.Failed? {
          failed := Some(reply.message);
        } else {
          zip := zip[Filename(ds[i]) := ExportPayload(ds[i], FetchedCards(reply))];
          i := i + 1;
        }
      }
      if failed.Some? {
        error := Some(ErrorText(failed.value, "Bulk export failed."));
      } else {
        assert ds[i..] == [];
        archive := Some(zip);
      }
      bulkLoading := false;
    }
  }
}
