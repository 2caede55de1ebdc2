/** The list logic of the deck list page (src/pages/Decks.jsx): the local
    search, the selection of deck identifiers, the list updates after a
    delete, the shape rules of a JSON import and the export payload with
    its file name. The page's state and handlers are in `DecksPage`. */
module Decks {
  import opened Common
  import opened Seqs
  import opened Text
  import opened JsValue

  /** A row of the `decks` table as the page holds it. */
  datatype Deck = Deck(id: string, title: Option<string>, description: Option<string>, createdAt: string)

  function Ids(ds: seq<Deck>): seq<string> {
    seq(|ds|, i requires 0 <= i < |ds| => ds[i].id)
  }

  /** Keeping only decks that were already in a list keeps only their
      identifiers. */
  lemma IdsOfMembers(a: seq<Deck>, b: seq<Deck>)
    requires forall i :: 0 <= i < |a| ==> a[i] in b
    ensures forall i :: 0 <= i < |a| ==> a[i].id in Ids(b)
  {
    forall i | 0 <= i < |a| ensures a[i].id in Ids(b) {
      var j :| 0 <= j < |b| && b[j] == a[i];
      assert Ids(b)[j] == a[i].id;
    }
  }

  // ---------------------------------------------------------------- search

  /** The query as the filter uses it: trimmed and lower-cased. */
  function Query(search: string): string {
    Lower(Trim(search))
  }

  /** The lower-cased title or description (missing ones read as "")
      contains `q`. */
  predicate Matches(d: Deck, q: string) {
    Contains(Lower(d.title.GetOr("")), q) || Contains(Lower(d.description.GetOr("")), q)
  }

  predicate Shown(d: Deck, q: string) {
    q == "" || Matches(d, q)
  }

  /** `filteredDecks`: the decks the query shows, in their original order. */
  function FilteredDecks(decks: seq<Deck>, search: string): (r: seq<Deck>)
    ensures IsSubseq(r, decks)
    ensures forall i :: 0 <= i < |decks| ==> (decks[i] in r <==> Shown(decks[i], Query(search)))
    ensures forall i :: 0 <= i < |r| ==> r[i] in decks && Shown(r[i], Query(search))
  {
    var q := Query(search);
    Filter(decks, d => Shown(d, q))
  }

  /** A query that is empty after trimming shows every deck; otherwise
      exactly the decks whose title or description contains it. */
  lemma FilteredDecksSpec(decks: seq<Deck>, search: string)
    ensures Trim(search) == "" ==> FilteredDecks(decks, search) == decks
    ensures Trim(search) != "" ==>
      forall i :: 0 <= i < |decks| ==> (decks[i] in FilteredDecks(decks, search) <==> Matches(decks[i], Query(search)))
  {
    assert |Query(search)| == |Trim(search)|;
  }

  // ------------------------------------------------------------- selection

  function Without(ids: seq<string>, id: string): seq<string> {
    Filter(ids, x => x != id)
  }

  /** `toggleSelectDeck`: removes `id` if it is selected, otherwise appends
      it; the other identifiers keep their order. */
  function ToggleId(ids: seq<string>, id: string): (r: seq<string>)
    ensures id in ids ==> id !in r && forall x :: x != id ==> (x in r <==> x in ids)
    ensures id !in ids ==> r == ids + [id]
    ensures Without(r, id) == Without(ids, id)
    ensures NoDup(ids) ==> NoDup(r)
  {
    if id in ids then
      Without(ids, id)
    else
      FilterAppend(ids, [id], x => x != id);
      ids + [id]
  }

  /** `allVisibleSelected`. */
  predicate AllVisibleSelected(visible: seq<Deck>, selected: seq<string>) {
    |visible| > 0 && forall i :: 0 <= i < |visible| ==> visible[i].id in selected
  }

  /** Unselect every visible deck. */
  function Deselect(selected: seq<string>, visible: seq<Deck>): seq<string> {
    Filter(selected, x => x !in Ids(visible))
  }

  /** The `forEach`/`push` loop of select-all: append each identifier of
      `ids` that `acc` does not yet hold. */
  function AppendMissing(acc: seq<string>, ids: seq<string>): seq<string>
    decreases |ids|
  {
    if ids == [] then acc
    else AppendMissing(if ids[0] in acc then acc else acc + [ids[0]], ids[1..])
  }

  /** `handleToggleSelectAllVisible` as a function of the current selection. */
  function SelectAllVisible(selected: seq<string>, visible: seq<Deck>): seq<string> {
    if AllVisibleSelected(visible, selected) then Deselect(selected, visible)
    else AppendMissing(selected, Ids(visible))
  }

  lemma {:induction false} AppendMissingSpec(acc: seq<string>, ids: seq<string>)
    ensures var r := AppendMissing(acc, ids);
      && acc <= r
      && (forall x :: x in ids ==> x in r)
      && (forall x :: x in r ==> x in acc || x in ids)
      && IsSubseq(r[|acc|..], ids)
      && NoDup(r[|acc|..])
      && (forall x :: x in r[|acc|..] ==> x !in acc)
    decreases |ids|
  {
    if ids != [] {
      var x := ids[0];
      var acc' := if x in acc then acc else acc + [x];
      AppendMissingSpec(acc', ids[1..]);
      var r := AppendMissing(acc, ids);
      assert r == AppendMissing(acc', ids[1..]);
      assert ids == [x] + ids[1..];
      var rest := r[|acc'|..];
      SubseqCons(rest, ids[1..], x);
      if x in acc {
        assert r[|acc|..] == rest;
      } else {
        assert r[|acc|..] == [x] + rest;
        assert x in acc';
      }
    } else {
      assert AppendMissing(acc, ids)[|acc|..] == [];
    }
  }

  /** Select-all when every shown deck is selected: the shown ones go. */
  lemma DeselectSpec(selected: seq<string>, visible: seq<Deck>)
    requires AllVisibleSelected(visible, selected)
    ensures var r := Deselect(selected, visible);
      && IsSubseq(r, selected)
      && (forall x :: x in r <==> x in selected && x !in Ids(visible))
      && (NoDup(selected) ==> NoDup(r))
      && !AllVisibleSelected(visible, r)
  {
    var r := Deselect(selected, visible);
    assert visible[0].id == Ids(visible)[0];
    assert visible[0].id !in r;
  }

  /** Select-all otherwise: the missing shown ones are appended. */
  lemma AppendVisibleSpec(selected: seq<string>, visible: seq<Deck>)
    requires !AllVisibleSelected(visible, selected)
    ensures var r := AppendMissing(selected, Ids(visible));
      && selected <= r
      && (forall i :: 0 <= i < |visible| ==> visible[i].id in r)
      && (forall x :: x in r ==> x in selected || x in Ids(visible))
      && IsSubseq(r[|selected|..], Ids(visible))
      && NoDup(r[|selected|..])
      && (forall x :: x in r[|selected|..] ==> x !in selected)
      && (|visible| > 0 ==> AllVisibleSelected(visible, r))
  {
    var vis := Ids(visible);
    AppendMissingSpec(selected, vis);
    assert forall i :: 0 <= i < |visible| ==> visible[i].id == vis[i];
  }

  /** Appending distinct identifiers none of which is present keeps a list
      free of duplicates. */
  lemma AppendFreshNoDup(selected: seq<string>, r: seq<string>)
    requires selected <= r && NoDup(selected) && NoDup(r[|selected|..])
    requires forall x :: x in r[|selected|..] ==> x !in selected
    ensures NoDup(r)
  {
    forall i, j | 0 <= i < j < |r| ensures r[i] != r[j] {
      if j >= |selected| {
        assert r[j] == r[|selected|..][j - |selected|];
        if i >= |selected| {
          assert r[i] == r[|selected|..][i - |selected|];
        } else {
          assert r[i] in selected;
          assert r[j] in r[|selected|..];
        }
      }
    }
  }

  /** Select-all on the visible decks. If they were all selected, exactly
      the visible identifiers are removed and the others keep their order;
      otherwise the old entries keep their positions and the missing
      visible identifiers follow, once each, in visible order. Either way
      the checkbox flips. */
  lemma SelectAllVisibleSpec(selected: seq<string>, visible: seq<Deck>)
    ensures var r := SelectAllVisible(selected, visible);
      && (AllVisibleSelected(visible, selected) ==>
            IsSubseq(r, selected)
            && (forall x :: x in r <==> x in selected && x !in Ids(visible)))
      && (!AllVisibleSelected(visible, selected) ==>
            selected <= r
            && (forall i :: 0 <= i < |visible| ==> visible[i].id in r)
            && (forall x :: x in r ==> x in selected || x in Ids(visible))
            && IsSubseq(r[|selected|..], Ids(visible))
            && NoDup(r[|selected|..])
            && (forall x :: x in r[|selected|..] ==> x !in selected))
      && (NoDup(selected) ==> NoDup(r))
      && (|visible| > 0 ==> AllVisibleSelected(visible, r) == !AllVisibleSelected(visible, selected))
  {
    if AllVisibleSelected(visible, selected) {
      DeselectSpec(selected, visible);
    } else {
      AppendVisibleSpec(selected, visible);
      var r := AppendMissing(selected, Ids(visible));
      if NoDup(selected) {
        AppendFreshNoDup(selected, r);
      }
    }
  }


  // --------------------------------------------------------- list updates

  /** The deck list after a single delete: that deck goes, nothing else
      changes. */
  function DecksWithout(decks: seq<Deck>, id: string): (r: seq<Deck>)
    ensures IsSubseq(r, decks)
    ensures forall i :: 0 <= i < |decks| ==> (decks[i] in r <==> decks[i].id != id)
    ensures forall i :: 0 <= i < |r| ==> r[i].id != id
    ensures (forall i :: 0 <= i < |decks| ==> decks[i].id != id) ==> r == decks
  {
    Filter(decks, (d: Deck) => d.id != id)
  }

  /** The deck list after a bulk delete: the selected decks go. */
  function DecksNotIn(decks: seq<Deck>, ids: seq<string>): (r: seq<Deck>)
    ensures IsSubseq(r, decks)
    ensures forall i :: 0 <= i < |decks| ==> (decks[i] in r <==> decks[i].id !in ids)
    ensures ids == [] ==> r == decks
  {
    Filter(decks, (d: Deck) => d.id !in ids)
  }

  /** The decks a bulk export writes, in list order. */
  function DecksIn(decks: seq<Deck>, ids: seq<string>): (r: seq<Deck>)
    ensures IsSubseq(r, decks)
    ensures forall i :: 0 <= i < |decks| ==> (decks[i] in r <==> decks[i].id in ids)
  {
    Filter(decks, (d: Deck) => d.id in ids)
  }

  // ---------------------------------------------------------------- import

  /** The deck row an import inserts (the owner column is left out). */
  datatype DeckRow = DeckRow(title: Value, description: Value)

  /** A card row an import inserts. */
  datatype CardRow = CardRow(deckId: string, front: Value, back: Value)

  /** What an accepted import file asks for: the deck row and the card
      values to insert (empty when there is nothing to insert). */
  datatype ImportPlan = ImportPlan(deck: DeckRow, cards: seq<Value>)

  const MissingTitle: string := "JSON must include a \"title\" for the deck."

  /** The deck object: `parsed.deck`, or `parsed` itself when that is falsy. */
  function DeckData(parsed: Value): (r: Value)
    requires !IsNullish(parsed)
    ensures !IsNullish(r)
  {
    Or(Prop(parsed, "deck"), parsed)
  }

  /** The cards: `parsed.cards`, else the deck object's `cards`, else `[]`. */
  function CardsData(parsed: Value): Value
    requires !IsNullish(parsed)
  {
    Or(Or(Prop(parsed, "cards"), Prop(DeckData(parsed), "cards")), Arr([]))
  }

  /** The payload extraction of `handleImportFile`, up to the deck insert. */
  function ExtractImport(parsed: Value): (r: Result<ImportPlan, string>)
    ensures IsNullish(parsed) ==> r == Err(TypeErrorText(parsed, "deck"))
    ensures !IsNullish(parsed) ==>
      var deck := DeckData(parsed);
      && (r.Err? <==> !Truthy(Prop(deck, "title")))
      && (r.Err? ==> r.error == MissingTitle)
      && (r.Ok? ==>
            && r.value.deck.title == Prop(deck, "title")
            && (Truthy(Prop(deck, "description")) ==> r.value.deck.description == Prop(deck, "description"))
            && (!Truthy(Prop(deck, "description")) ==> r.value.deck.description == Null)
            && (CardsData(parsed).Arr? ==> r.value.cards == CardsData(parsed).items)
            && (!CardsData(parsed).Arr? ==> r.value.cards == []))
  {
    match Get(parsed, "deck")
    case Err(e) => Err(e)
    case Ok(_) =>
      var deck := DeckData(parsed);
      var cards := CardsData(parsed);
      var title := Prop(deck, "title");
      if !Truthy(title) then Err(MissingTitle)
      else
        Ok(ImportPlan(
          DeckRow(title, Or(Prop(deck, "description"), Null)),
          if cards.Arr? then cards.items else []))
  }

  /** `cardsData.map(c => ({deck_id, front: c.front, back: c.back}))`; a
      null entry throws. */
  function CardRows(items: seq<Value>, deckId: string): (r: Result<seq<CardRow>, string>)
    ensures r.Ok? <==> forall i :: 0 <= i < |items| ==> !IsNullish(items[i])
    ensures r.Ok? ==>
      && |r.value| == |items|
      && forall i :: 0 <= i < |items| ==>
           r.value[i] == CardRow(deckId, Prop(items[i], "front"), Prop(items[i], "back"))
    decreases |items|
  {
    if items == [] then Ok([])
    else if IsNullish(items[0]) then Err(TypeErrorText(items[0], "front"))
    else
      match CardRows(items[1..], deckId)
      case Err(e) => Err(e)
      case Ok(rest) => Ok([CardRow(deckId, Prop(items[0], "front"), Prop(items[0], "back"))] + rest)
  }

  // ---------------------------------------------------------------- export

  function OptStr(x: Option<string>): Value {
    match x
    case None => Null
    case Some(s) => Str(s)
  }

  /** `{front: c.front, back: c.back}`. */
  function CardEntry(c: Card): Value {
    Obj(map["front" := OptStr(c.front), "back" := OptStr(c.back)])
  }

  function CardEntries(cards: seq<Card>): seq<Value> {
    seq(|cards|, i requires 0 <= i < |cards| => CardEntry(cards[i]))
  }

  /** The payload of one exported deck, as `JSON.parse` reads it back. */
  function ExportPayload(d: Deck, cards: seq<Card>): Value {
    Obj(map[
      "deck" := Obj(map[
        "id" := Str(d.id),
        "title" := OptStr(d.title),
        "description" := OptStr(d.description),
        "created_at" := Str(d.createdAt)]),
      "cards" := Arr(CardEntries(cards))])
  }

  /** The description an import stores for an exported one: falsy becomes null. */
  function ImportedDescription(desc: Option<string>): Value {
    if desc.Some? && desc.value != "" then Str(desc.value) else Null
  }

  /** Exporting a titled deck and importing the payload gives back the
      title, the description (falsy mapped to null) and the cards' front
      and back texts, in order. */
  lemma ExportImportRoundTrip(d: Deck, cards: seq<Card>, newId: string)
    requires d.title.Some? && d.title.value != ""
    ensures ExtractImport(ExportPayload(d, cards))
            == Ok(ImportPlan(DeckRow(Str(d.title.value), ImportedDescription(d.description)), CardEntries(cards)))
    ensures CardRows(CardEntries(cards), newId).Ok?
    ensures var rows := CardRows(CardEntries(cards), newId).value;
      |rows| == |cards|
      && forall i :: 0 <= i < |cards| ==>
           rows[i] == CardRow(newId, OptStr(cards[i].front), OptStr(cards[i].back))
  {
    var p := ExportPayload(d, cards);
    var entries := CardEntries(cards);
    assert Prop(p, "deck").Obj?;
    assert DeckData(p) == Prop(p, "deck");
    assert CardsData(p) == Arr(entries);
    forall i | 0 <= i < |entries| ensures !IsNullish(entries[i]) {
      assert entries[i] == CardEntry(cards[i]);
    }
  }

  /** An exported deck whose title is missing or empty cannot be imported back. */
  lemma ExportUntitledRejected(d: Deck, cards: seq<Card>)
    requires d.title.None? || d.title.value == ""
    ensures ExtractImport(ExportPayload(d, cards)) == Err(MissingTitle)
  {
    var p := ExportPayload(d, cards);
    assert DeckData(p) == Prop(p, "deck");
  }

  // ------------------------------------------------------ safe file names

  predicate IsWordChar(c: char) {
    'a' <= c <= 'z' || 'A' <= c <= 'Z' || '0' <= c <= '9' || c == '_'
  }

  /** Characters the pattern `[^\w\-]` leaves alone. */
  predicate IsSafe(c: char) {
    IsWordChar(c) || c == '-'
  }

  predicate AllSafe(s: string) {
    forall i :: 0 <= i < |s| ==> IsSafe(s[i])
  }

  /** `s` without its leading unsafe characters. */
  function DropUnsafe(s: string): (r: string)
    ensures |r| <= |s|
    decreases |s|
  {
    if s != [] && !IsSafe(s[0]) then DropUnsafe(s[1..]) else s
  }

  lemma {:induction false} DropUnsafeSuffix(s: string)
    ensures DropUnsafe(s) == s[|s| - |DropUnsafe(s)|..]
    decreases |s|
  {
    if s != [] && !IsSafe(s[0]) {
      DropUnsafeSuffix(s[1..]);
    }
  }

  /** `s.replace(/[^\w\-]+/g, '_')`: every maximal run of unsafe
      characters becomes one '_'. */
  function Collapse(s: string): string
    decreases |s|
  {
    if s == [] then []
    else if IsSafe(s[0]) then [s[0]] + Collapse(s[1..])
    else "_" + Collapse(DropUnsafe(s[1..]))
  }

  /** The collapsed text is made of safe characters, is no longer than
      the original and is empty only when the original is. */
  lemma {:induction false} CollapseShape(s: string)
    ensures AllSafe(Collapse(s))
    ensures |Collapse(s)| <= |s|
    ensures s != [] <==> Collapse(s) != []
    decreases |s|
  {
    if s != [] {
      if IsSafe(s[0]) {
        CollapseShape(s[1..]);
      } else {
        CollapseShape(DropUnsafe(s[1..]));
      }
    }
  }

  lemma {:induction false} CollapseKeepsSafe(s: string)
    requires AllSafe(s)
    ensures Collapse(s) == s
    decreases |s|
  {
    if s != [] {
      CollapseKeepsSafe(s[1..]);
    }
  }

  /** A safe first character is kept. */
  lemma CollapseSafeHead(c: char, w: string)
    requires IsSafe(c)
    ensures Collapse([c] + w) == [c] + Collapse(w)
  {
    assert ([c] + w)[1..] == w;
  }

  /** An unsafe first character starts a run that becomes one '_'. */
  lemma CollapseUnsafeHead(c: char, w: string)
    requires !IsSafe(c)
    ensures Collapse([c] + w) == "_" + Collapse(DropUnsafe(w))
  {
    assert ([c] + w)[1..] == w;
  }

  /** Collapsing works piece by piece across a safe character. */
  lemma {:induction false} CollapseSplit(u: string, v: string)
    requires u != [] && IsSafe(u[|u| - 1])
    ensures Collapse(u + v) == Collapse(u) + Collapse(v)
    decreases |u|
  {
    var c, t := u[0], u[1..];
    assert u == [c] + t;
    assert u + v == [c] + (t + v);
    if IsSafe(c) {
      CollapseSafeHead(c, t);
      CollapseSafeHead(c, t + v);
      if t != [] {
        assert t[|t| - 1] == u[|u| - 1];
        CollapseSplit(t, v);
      } else {
        assert t + v == v;
      }
    } else {
      CollapseUnsafeHead(c, t);
      CollapseUnsafeHead(c, t + v);
      DropUnsafeSplit(t, v);
      CollapseSplit(DropUnsafe(t), v);
    }
  }


  lemma {:induction false} DropUnsafeSplit(t: string, v: string)
    requires t != [] && IsSafe(t[|t| - 1])
    ensures DropUnsafe(t + v) == DropUnsafe(t) + v
    ensures DropUnsafe(t) != [] && IsSafe(DropUnsafe(t)[|DropUnsafe(t)| - 1])
    decreases |t|
  {
    assert (t + v)[0] == t[0];
    if !IsSafe(t[0]) {
      assert (t + v)[1..] == t[1..] + v;
      assert DropUnsafe(t + v) == DropUnsafe(t[1..] + v);
      assert DropUnsafe(t) == DropUnsafe(t[1..]);
      DropUnsafeSplit(t[1..], v);
    }
  }

  function Take(s: string, n: nat): (r: string)
    ensures |r| <= n && r <= s
    ensures |s| <= n ==> r == s
    ensures |s| >= n ==> |r| == n
  {
    if |s| <= n then s else s[..n]
  }

  /** The `safeTitle` of a bulk export. */
  function Slug(title: Option<string>): string {
    var base := if title.None? || title.value == "" then "deck" else title.value;
    var r := Take(Collapse(Lower(base)), 50);
    if r == "" then "deck" else r
  }

  /** The slug is non-empty, at most 50 characters, made of lower-case
      word characters and '-'; the final `|| 'deck'` never fires, and a
      title that is already safe, lower-case and short is its own slug. */
  lemma SlugSpec(title: Option<string>)
    ensures var s := Slug(title);
      && 1 <= |s| <= 50
      && AllSafe(s)
      && (forall i :: 0 <= i < |s| ==> !IsUpper(s[i]))
    ensures var base := if title.None? || title.value == "" then "deck" else title.value;
      Slug(title) == Take(Collapse(Lower(base)), 50)
    ensures title.Some? && title.value != "" && AllSafe(title.value) && |title.value| <= 50
            && (forall i :: 0 <= i < |title.value| ==> !IsUpper(title.value[i]))
            ==> Slug(title) == title.value
  {
    var base := if title.None? || title.value == "" then "deck" else title.value;
    var low := Lower(base);
    assert low != [];
    CollapseShape(low);
    CollapseNoUpper(low);
    if title.Some? && title.value != "" && AllSafe(title.value)
       && (forall i :: 0 <= i < |title.value| ==> !IsUpper(title.value[i])) {
      assert low == title.value;
      CollapseKeepsSafe(low);
    }
  }

  lemma {:induction false} CollapseNoUpper(s: string)
    requires forall i :: 0 <= i < |s| ==> !IsUpper(s[i])
    ensures forall i :: 0 <= i < |Collapse(s)| ==> !IsUpper(Collapse(s)[i])
    decreases |s|
  {
    if s != [] {
      if IsSafe(s[0]) {
        CollapseNoUpper(s[1..]);
      } else {
        DropUnsafeSuffix(s[1..]);
        CollapseNoUpper(DropUnsafe(s[1..]));
      }
    }
  }

  /** `${safeTitle}_${deck.id}.json`. */
  function Filename(d: Deck): string {
    Slug(d.title) + "_" + d.id + ".json"
  }

  /** The cards of a fetch answer: `cardsData ?? []`. */
  function FetchedCards(reply: Reply<seq<Card>>): seq<Card> {
    match reply
    case Data(cards) => cards.GetOr([])
    case Failed(_) => []
  }

  /** The `for...of` loop of a bulk export: one archive entry per deck,
      stopping at the first failed card fetch. A later entry of the same
      name replaces an earlier one, as `zip.file` does. */
  function AddEntries(zip: map<string, Value>, ds: seq<Deck>, fetch: string -> Reply<seq<Card>>)
    : Result<map<string, Value>, string>
    decreases |ds|
  {
    if ds == [] then Ok(zip)
    else
      var reply := fetch(ds[0].id);
      if reply.Failed? then Err(reply.message)
      else AddEntries(zip[Filename(ds[0]) := ExportPayload(ds[0], FetchedCards(reply))], ds[1..], fetch)
  }

  function FilenameSet(ds: seq<Deck>): set<string> {
    set i | 0 <= i < |ds| :: Filename(ds[i])
  }

  lemma FilenameSetCons(ds: seq<Deck>)
    requires ds != []
    ensures FilenameSet(ds) == {Filename(ds[0])} + FilenameSet(ds[1..])
  {
    var tail := ds[1..];
    forall k | k in FilenameSet(ds) ensures k in {Filename(ds[0])} + FilenameSet(tail) {
      var i :| 0 <= i < |ds| && k == Filename(ds[i]);
      if i > 0 { assert k == Filename(tail[i - 1]); }
    }
    forall k | k in FilenameSet(tail) ensures k in FilenameSet(ds) {
      var i :| 0 <= i < |tail| && k == Filename(tail[i]);
      assert k == Filename(ds[i + 1]);
    }
  }

  /** The export completes exactly when every card fetch succeeds. */
  lemma {:induction false} AddEntriesOk(zip: map<string, Value>, ds: seq<Deck>, fetch: string -> Reply<seq<Card>>)
    ensures AddEntries(zip, ds, fetch).Ok? <==> forall i :: 0 <= i < |ds| ==> fetch(ds[i].id).Data?
    decreases |ds|
  {
    if ds != [] {
      var reply := fetch(ds[0].id);
      if reply.Data? {
        var zip' := zip[Filename(ds[0]) := ExportPayload(ds[0], FetchedCards(reply))];
        AddEntriesOk(zip', ds[1..], fetch);
        assert forall i :: 0 <= i < |ds[1..]| ==> ds[1..][i] == ds[i + 1];
      }
    }
  }

  /** The index of the first deck whose card fetch fails, or the number
      of decks when none does. */
  function FirstFailed(ds: seq<Deck>, fetch: string -> Reply<seq<Card>>): (k: nat)
    ensures k <= |ds|
    ensures k < |ds| ==> fetch(ds[k].id).Failed?
    ensures forall j :: 0 <= j < k ==> fetch(ds[j].id).Data?
    decreases |ds|
  {
    if ds == [] || fetch(ds[0].id).Failed? then 0
    else
      var m := FirstFailed(ds[1..], fetch);
      assert forall j :: 1 <= j < m + 1 ==> ds[j] == ds[1..][j - 1];
      m + 1
  }

  /** A failed export fails with the message of the first failed fetch. */
  lemma {:induction false} AddEntriesErrAt(zip: map<string, Value>, ds: seq<Deck>, fetch: string -> Reply<seq<Card>>)
    requires AddEntries(zip, ds, fetch).Err?
    ensures FirstFailed(ds, fetch) < |ds|
    ensures AddEntries(zip, ds, fetch).error == fetch(ds[FirstFailed(ds, fetch)].id).message
    decreases |ds|
  {
    var reply := fetch(ds[0].id);
    if reply.Data? {
      var zip' := zip[Filename(ds[0]) := ExportPayload(ds[0], FetchedCards(reply))];
      AddEntriesErrAt(zip', ds[1..], fetch);
      assert ds[FirstFailed(ds, fetch)] == ds[1..][FirstFailed(ds[1..], fetch)];
    }
  }

  /** A failed export reports the error of the first failed fetch. */
  lemma AddEntriesErr(zip: map<string, Value>, ds: seq<Deck>, fetch: string -> Reply<seq<Card>>)
    requires AddEntries(zip, ds, fetch).Err?
    ensures exists k :: 0 <= k < |ds| && fetch(ds[k].id).Failed?
                        && AddEntries(zip, ds, fetch).error == fetch(ds[k].id).message
                        && forall j :: 0 <= j < k ==> fetch(ds[j].id).Data?
  {
    AddEntriesErrAt(zip, ds, fetch);
    var k := FirstFailed(ds, fetch);
    assert fetch(ds[k].id).Failed?;
  }


  /** A complete archive holds one file per exported deck and keeps the
      entries it started with under other names. */
  lemma {:induction false} AddEntriesKeys(zip: map<string, Value>, ds: seq<Deck>, fetch: string -> Reply<seq<Card>>)
    requires AddEntries(zip, ds, fetch).Ok?
    ensures var r := AddEntries(zip, ds, fetch).value;
      && r.Keys == zip.Keys + FilenameSet(ds)
      && forall k :: k in zip && k !in FilenameSet(ds) ==> r[k] == zip[k]
    decreases |ds|
  {
    if ds != [] {
      var reply := fetch(ds[0].id);
      var zip' := zip[Filename(ds[0]) := ExportPayload(ds[0], FetchedCards(reply))];
      AddEntriesKeys(zip', ds[1..], fetch);
      FilenameSetCons(ds);
    }
  }

  /** In a complete archive, a deck whose file name no later deck reuses
      is stored under that name with its own payload. */
  lemma {:induction false} AddEntriesPayload(zip: map<string, Value>, ds: seq<Deck>, fetch: string -> Reply<seq<Card>>, i: nat)
    requires AddEntries(zip, ds, fetch).Ok?
    requires i < |ds|
    requires forall j :: i < j < |ds| ==> Filename(ds[j]) != Filename(ds[i])
    ensures var r := AddEntries(zip, ds, fetch).value;
      Filename(ds[i]) in r && r[Filename(ds[i])] == ExportPayload(ds[i], FetchedCards(fetch(ds[i].id)))
    decreases |ds|
  {
    var reply := fetch(ds[0].id);
    var zip' := zip[Filename(ds[0]) := ExportPayload(ds[0], FetchedCards(reply))];
    var tail := ds[1..];
    assert AddEntries(zip, ds, fetch) == AddEntries(zip', tail, fetch);
    if i == 0 {
      AddEntriesKeys(zip', tail, fetch);
      assert Filename(ds[0]) !in FilenameSet(tail);
    } else {
      assert ds[i] == tail[i - 1];
      assert forall j :: i - 1 < j < |tail| ==> tail[j] == ds[j + 1];
      AddEntriesPayload(zip', tail, fetch, i - 1);
    }
  }
}
