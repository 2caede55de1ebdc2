# Flashcards front end: a verified model of its page logic

The flashcards application is a React front end over a hosted database of
decks and cards. Almost all of it is markup and forwarding to the backend
client. This project models the parts that hold logic, and proves what they
promise:

- **The deck list page** (`src/pages/Decks.jsx`). It covers:
  - the local search;
  - the list of selected deck identifiers (toggle one, select or deselect
    all shown);
  - the deck list and selection after a single or a bulk delete;
  - the shape rules of a JSON import;
  - the payload and file name of each deck in a bulk export.

  The pure parts are functions in module `Decks`. The page state and its
  handlers are the class `DecksPage.DeckList`. The select-all loop and the
  export loop are `while`/`for` loops proved against the functions they
  compute.
- **The sequential review** (`src/pages/ReviewDeck.jsx`). The class
  `ReviewDeck.ReviewSession` holds the cursor, the card side, both counters,
  `finished` and `shuffle`. It has one method per handler. The counter
  update written to a card's row, the shuffle and the score are functions
  beside it.
- **Deck statistics** (`src/pages/DeckStats.jsx`), as functions in module
  `DeckStats`:
  - card, starred and counter totals;
  - the overall accuracy;
  - the "hardest cards" selection: filter, stable sort by accuracy, then
    the first five.
- **The cyclic reviewer** (`src/pages/Review.jsx`). The class
  `Review.CyclicReview` holds `currentIndex` and `showAnswer`, with an
  index that wraps around.
- **The theme** (`src/context/ThemeContext.jsx`). The initial choice and the
  flip are functions. The class `Theme.ThemeProvider` holds the theme, local
  storage as a map, and the document root's class list as a set.

Two helper modules support these:
- `Seqs` has a generic `Filter` (JavaScript's `filter`), with
  subsequence and duplicate-freedom facts.
- `Text` and `JsValue` model ASCII `toLowerCase`, `trim` and `includes`,
  and the JSON values `JSON.parse` yields, with truthiness, `||` and
  property reads that throw on `null`/`undefined`.

Shared records are in `Common`: the card row, the backend's answers and
the percentage `Math.round(part / whole * 100)`.

Every backend call becomes a parameter holding the answer the backend
gives:
- `Reply` for a select: data or an error message;
- `Outcome` for a delete or for the card insert of an import;
- `Result` for the one-row deck insert.

The review awaits the counter update it sends but ignores its result, so
that call takes no parameter. The answer methods return the card id and
the update they send.

`window.confirm` and the outcome of reading local storage are booleans.
The parsed import file is an `Option<Result<Value, string>>`: `None` when no
file was chosen, `Err` when `JSON.parse` fails. The random choices of the
shuffle are a `seq<nat>`.

## Model

| member | source | states |
|---|---|---|
| Common.Round | src/pages/ReviewDeck.jsx:78 | `Math.round` on an exact number: the result r satisfies r ≤ x + ½ < r + 1, so halves round up |
| Common.Percent | src/pages/DeckStats.jsx:73-74 | `Math.round(part / whole * 100)` with a non-zero whole, shared by the accuracy and the review score (ReviewDeck.jsx:78); its closed form is `Common.PercentExact` and its range `Common.PercentBounds` |
| Common.PercentExact | src/pages/ReviewDeck.jsx:78 | the rounded percentage of part over whole equals ⌊(200·part + whole) / (2·whole)⌋ |
| Common.PercentBounds | src/pages/DeckStats.jsx:73-74 | a part no larger than the whole gives a percentage in [0, 100]; 0 for no part, 100 for all of it |
| Text.Lower | src/pages/Decks.jsx:104-108 | `toLowerCase` keeps the length, turns each upper-case letter A-Z into its lower-case partner a-z (the same offset from `a` as from `A`) and leaves every other character alone, so no upper-case letter remains |
| Text.Trim | src/pages/Decks.jsx:103 | `trim` yields a slice of the input that neither starts nor ends with white space; only white space is cut on either side |
| Text.ContainsIffOccurs | src/pages/Decks.jsx:108 | `includes(q)` holds exactly when q occurs at some position of the string |
| JsValue.Get | src/pages/Decks.jsx:205 | reading a property fails with a TypeError exactly on `null` or `undefined`; an object's own field is returned as stored; any other key, or any other kind of value, gives `undefined` |
| Decks.FilteredDecks | src/pages/Decks.jsx:102-109 | the search result is a subsequence of the decks; it holds exactly the decks shown for the trimmed, lower-cased query |
| Decks.FilteredDecksSpec | src/pages/Decks.jsx:102-109 | a query that is blank after trimming keeps every deck in order; otherwise a deck is kept iff its lower-cased title or description (missing read as empty) contains the query |
| Decks.AllVisibleSelected | src/pages/Decks.jsx:119-121 | `visible.length > 0 && visible.every(d => selectedIds.includes(d.id))`; how select-all flips it is in `Decks.SelectAllVisibleSpec` |
| Decks.ToggleId | src/pages/Decks.jsx:111-117 | a selected id is removed and nothing else changes membership; an unselected id is appended at the end; the other ids keep their order; no duplicate is introduced |
| Decks.AppendMissingSpec | src/pages/Decks.jsx:131-134 | the `forEach`/`push` loop keeps the old entries as a prefix; every id ends up present; the appended part is a duplicate-free subsequence of the ids, none of them already present |
| Decks.SelectAllVisibleSpec | src/pages/Decks.jsx:119-137 | with every shown deck selected, exactly the shown ids go and the rest keep their order; otherwise the old entries keep their positions and each missing shown id is appended once, in shown order; duplicate-freedom is kept and the "all shown selected" checkbox flips |
| Decks.DecksWithout | src/pages/Decks.jsx:96 | after a single delete: a subsequence of the decks without the deleted id, and every other deck stays |
| Decks.DecksNotIn | src/pages/Decks.jsx:173 | after a bulk delete: exactly the decks whose id is not selected, in order |
| Decks.DecksIn | src/pages/Decks.jsx:265-267 | the export set: exactly the decks whose id is selected, in list order |
| Decks.DeckData | src/pages/Decks.jsx:205 | `parsed.deck \|\| parsed` on a value that is not `null`/`undefined`: never `null` or `undefined` itself, so reading its fields cannot throw |
| Decks.CardsData | src/pages/Decks.jsx:206-207 | `parsed.cards \|\| deckData.cards`; `Decks.ExtractImport` states how it becomes the list of cards to insert |
| Decks.ExtractImport | src/pages/Decks.jsx:200-227 | `null`/`undefined` input fails with the TypeError of reading `deck`; the deck object is `parsed.deck` or else `parsed`; a falsy title fails with the missing-title message before any insert; a falsy description becomes `null`; the cards are the elements of `parsed.cards`, else the deck's `cards`, when that is an array, and none otherwise |
| Decks.CardRows | src/pages/Decks.jsx:228-232 | building rows succeeds iff no card value is `null`/`undefined`; then row i is `{deck_id: newDeck.id, front, back}` of card i |
| Decks.ExportPayload | src/pages/Decks.jsx:278-289 | the `{deck: {id, title, description, created_at}, cards: [{front, back}]}` payload of one deck, as read back by `JSON.parse`; `Decks.ExportImportRoundTrip` states what importing it yields |
| Decks.ExportImportRoundTrip | src/pages/Decks.jsx:278-289 | importing (lines 205-232) the export payload of a titled deck gives back its title, its description (falsy as `null`) and the front and back of every card, in order |
| Decks.ExportUntitledRejected | src/pages/Decks.jsx:209-211 | the export payload of a deck without a title is refused on import with the missing-title message |
| Decks.CollapseShape | src/pages/Decks.jsx:295 | replacing each run of characters outside `[A-Za-z0-9_-]` by one `_` yields only safe characters, is no longer, and is empty only for empty input |
| Decks.CollapseSplit | src/pages/Decks.jsx:295 | the replacement works run by run: on a split at a boundary between a safe and an unsafe character it is the concatenation of the parts' replacements |
| Decks.Slug | src/pages/Decks.jsx:292-296 | the file-name stem `(title \|\| 'deck').toLowerCase().replace(/[^\w\-]+/g, '_').slice(0, 50) \|\| 'deck'`; its shape is `Decks.SlugSpec` |
| Decks.Filename | src/pages/Decks.jsx:298 | `${slug}_${deck.id}.json`, the archive key of a deck; `Decks.AddEntriesKeys` says every exported deck gets one |
| Decks.SlugSpec | src/pages/Decks.jsx:292-296 | the slug is the lower-cased title (or `deck`) with unsafe runs replaced, cut at 50; it is 1 to 50 safe, non-upper-case characters, so the final `\|\| 'deck'` never applies; a safe, lower-case title of at most 50 characters is its own slug |
| Decks.AddEntries | src/pages/Decks.jsx:269-301 | the `for...of` export loop on values: one archive entry per deck, stopping at the first failed fetch; `Decks.AddEntriesOk`, `AddEntriesErr`, `AddEntriesKeys` and `AddEntriesPayload` state its outcome |
| Decks.AddEntriesOk | src/pages/Decks.jsx:269-276 | the export loop completes exactly when every card fetch succeeds |
| Decks.AddEntriesErr | src/pages/Decks.jsx:269-307 | a failed export reports the message of the first failing fetch, and every earlier fetch succeeded |
| Decks.AddEntriesKeys | src/pages/Decks.jsx:292-300 | a complete archive holds one `slug_id.json` file per exported deck, besides its earlier entries |
| Decks.AddEntriesPayload | src/pages/Decks.jsx:278-300 | each deck whose file name no later deck reuses is stored under that name with its `{deck, cards}` payload |
| DecksPage.ErrorText | src/pages/Decks.jsx:177 | `err.message \|\| fallback`, also at lines 245 and 307: the text shown is JavaScript's `\|\|` (`JsValue.Or`) of the two strings, so an empty message, being falsy, gives way to the fallback |
| DecksPage.LoadErrorText | src/pages/Decks.jsx:34-40 | the not-set-up message is shown exactly when the missing-table text occurs at some position of the error message (`includes`, through `Text.ContainsIffOccurs`); otherwise the try-later message |
| DecksPage.PushMissing | src/pages/Decks.jsx:131-134 | the `forEach`/`push` loop returns `AppendMissing` of the list and the shown ids, whose properties `Decks.AppendMissingSpec` states |
| DecksPage.DeckList.constructor | src/pages/Decks.jsx:21-48 | without a user the page stays loading with no decks; otherwise a failed select leaves no decks and the load error message, a successful one holds the rows (`null` as none) |
| DecksPage.DeckList.SetSearch | src/pages/Decks.jsx:327 | typing in the search box replaces the search text and nothing else; the shown decks follow from it through `Decks.FilteredDecks` |
| DecksPage.DeckList.ToggleSelectDeck | src/pages/Decks.jsx:111-117 | a shown deck's checkbox sets the selection to `ToggleId` of the old one and keeps the selection valid: no duplicates, only ids of listed decks; nothing else changes |
| DecksPage.DeckList.ToggleSelectAllVisible | src/pages/Decks.jsx:119-137 | the loop leaves the selection equal to `SelectAllVisible` of the old selection and the shown decks; the selection stays valid; nothing else changes |
| DecksPage.DeckList.DeleteDeck | src/pages/Decks.jsx:62-99 | without confirmation nothing changes; a failed card or deck delete sets that error and leaves both lists unchanged; success removes the id from decks and selection and clears the error; `deletingId` is cleared either way |
| DecksPage.DeckList.BulkDelete | src/pages/Decks.jsx:140-181 | an empty selection or a refused confirmation changes nothing; a failure sets `err.message \|\| 'Bulk delete failed.'` and keeps both lists; success drops the selected decks and empties the selection; `bulkLoading` ends false |
| DecksPage.DeckList.ImportFile | src/pages/Decks.jsx:190-249 | no file: nothing changes; a parse, shape, deck-insert or card-insert failure sets `err.message \|\| 'Failed to import deck.'` and keeps the list; card rows are sent only for a non-empty card array; on success the new deck is prepended; the selection stays valid |
| DecksPage.DeckList.BulkExport | src/pages/Decks.jsx:256-311 | an empty selection changes nothing; otherwise the archive is `AddEntries` over the selected decks in list order, or the error `err.message \|\| 'Bulk export failed.'`; lists are unchanged and `bulkLoading` ends false |
| ReviewDeck.Shuffled | src/pages/ReviewDeck.jsx:31-33 | the shuffle, with the random choices given as `picks`: each step moves a chosen remaining card to the front of the rest; `ReviewDeck.ShuffledPermutes` and `ReviewDeck.ShuffleReaches` state what it can produce |
| ReviewDeck.ShuffledPermutes | src/pages/ReviewDeck.jsx:31-33 | whatever the random choices, the shuffled cards are a permutation of the fetched ones |
| ReviewDeck.ShuffleReaches | src/pages/ReviewDeck.jsx:31-33 | every permutation of the fetched cards is the result of some random choices |
| ReviewDeck.LoadedCards | src/pages/ReviewDeck.jsx:21-40 | only an answer without error and with data replaces the cards: in stored order without shuffle, as a permutation with it |
| ReviewDeck.AnswerUpdate | src/pages/ReviewDeck.jsx:150-170 | a correct answer writes attempts = (attempts ‖ 0) + 1 and correct = (correct ‖ 0) + 1 and leaves incorrect alone; an incorrect answer is symmetric |
| ReviewDeck.Apply | src/pages/ReviewDeck.jsx:150-156 | the backend's update sets exactly the columns written and leaves every other column of the row as it was |
| ReviewDeck.AnswerKeepsBalance | src/pages/ReviewDeck.jsx:150-170 | an answer adds one attempt and exactly one correct or incorrect answer, so attempts = correct + incorrect holds on the written row if it held on the loaded one |
| ReviewDeck.ResentUpdateChangesNothing | src/pages/ReviewDeck.jsx:150-156 | the loaded cards are never refreshed, so when a review restarted (lines 83-89) gets the same answer for a card as the first pass, it resends the first pass's update, which leaves the row as it was |
| ReviewDeck.StaleResendUnbalances | src/pages/ReviewDeck.jsx:164-170 | after "correct" in the first pass and "incorrect" after a restart, both updates computed from the stale loaded card leave a balanced row with one attempt more but two answers more, so attempts = correct + incorrect no longer holds |
| ReviewDeck.ReviewSession.constructor | src/pages/ReviewDeck.jsx:8-40 | the session starts at the first card, front up, counters 0, not finished, not shuffled, with the cards of the initial load |
| ReviewDeck.ReviewSession.Score | src/pages/ReviewDeck.jsx:78 | the final score is the rounded percentage of correct answers over cards, in [0, 100]; 100 when all were correct, 0 when none |
| ReviewDeck.ReviewSession.View | src/pages/ReviewDeck.jsx:45-126 | the results screen appears exactly when finished, showing the two counters (which add up to the number of cards) and `Score()`; "No cards" exactly when not finished and empty; otherwise card `index`, on the face `showBack` selects, as card `index + 1` of n |
| ReviewDeck.ReviewSession.Flip | src/pages/ReviewDeck.jsx:242 | flipping toggles `showBack` and changes nothing else |
| ReviewDeck.ReviewSession.NextCard | src/pages/ReviewDeck.jsx:137-145 | `showBack` becomes false; at the last card the session finishes with the index unchanged, otherwise the index goes up by one |
| ReviewDeck.ReviewSession.MarkCorrect | src/pages/ReviewDeck.jsx:147-159 | only `correctCount` goes up, by one; the update for the current card is returned; the card list is untouched; then `nextCard`; the session invariant (index in range, counters = answers so far) is kept |
| ReviewDeck.ReviewSession.MarkIncorrect | src/pages/ReviewDeck.jsx:161-173 | as MarkCorrect, with `incorrectCount` and the incorrect update |
| ReviewDeck.ReviewSession.Restart | src/pages/ReviewDeck.jsx:83-89 | counters and index become 0, `finished` and `showBack` false; cards and shuffle stay |
| ReviewDeck.ReviewSession.ToggleShuffle | src/pages/ReviewDeck.jsx:187-193 | shuffle flips; index, finished and both counters reset but `showBack` does not; the cards become the reloaded ones |
| ReviewDeck.ReviewSession.Progress | src/pages/ReviewDeck.jsx:131-132 | the progress bar width is in [0, 100), and 0 at the first card |
| DeckStats.StarredCount | src/pages/DeckStats.jsx:67 | the starred count is at most the number of cards, and all of them when every card is starred |
| DeckStats.StarredCountAppend | src/pages/DeckStats.jsx:67 | the starred count of two lists is the sum of their counts |
| DeckStats.StarredCountOne | src/pages/DeckStats.jsx:67 | a single card counts 1 exactly when `starred === true`, so a missing or false flag counts 0 |
| DeckStats.Total | src/pages/DeckStats.jsx:69-71 | `cards.reduce((sum, c) => sum + (c.field \|\| 0), 0)` for the attempts, correct and incorrect columns; `DeckStats.TotalAppend`, `TotalBoundsEach` and `BalancedTotals` state its properties |
| DeckStats.TotalAppend | src/pages/DeckStats.jsx:69-71 | a counter total over two lists is the sum of their totals |
| DeckStats.TotalBoundsEach | src/pages/DeckStats.jsx:69-71 | each card's counter (missing read as 0) is part of the total |
| DeckStats.BalancedTotals | src/pages/DeckStats.jsx:69-71 | when every card's attempts are its correct plus incorrect answers, total attempts are total correct plus total incorrect |
| DeckStats.Accuracy | src/pages/DeckStats.jsx:73-74 | 0 without attempts, otherwise `Common.Percent` of correct over attempts; `DeckStats.AccuracyRounds` and `AccuracyBounds` pin it down |
| DeckStats.AccuracyRounds | src/pages/DeckStats.jsx:73-74 | the accuracy is 0 without attempts; otherwise r satisfies 2ar − a ≤ 200c < 2ar + a, that is, it is 100·c/a rounded with halves up |
| DeckStats.AccuracyBounds | src/pages/DeckStats.jsx:73-74 | with no more correct answers than attempts the accuracy lies in [0, 100] |
| DeckStats.BalancedAccuracyBounds | src/pages/DeckStats.jsx:69-74 | for balanced cards the accuracy lies in [0, 100] |
| DeckStats.Annotate | src/pages/DeckStats.jsx:78-83 | the entry is the card with `attempts` normalised (missing as 0) and nothing else changed, plus accuracy correct / attempts, 0 without attempts |
| DeckStats.SortByAccuracy | src/pages/DeckStats.jsx:85 | the `sort((a, b) => a.accuracy - b.accuracy)` step as an insertion sort; `DeckStats.SortAscending` and `SortStable` state that it orders, permutes and keeps ties in input order |
| DeckStats.SortAscending | src/pages/DeckStats.jsx:85 | the sort orders by ascending accuracy and is a permutation of its input |
| DeckStats.SortStable | src/pages/DeckStats.jsx:85 | the sort is stable: the entries of any one accuracy appear in their input order |
| DeckStats.HardestCards | src/pages/DeckStats.jsx:77-86 | annotate, keep cards with at least three attempts, sort, take the first five; the `DeckStats.Hardest*` lemmas state the result |
| DeckStats.HardestBounds | src/pages/DeckStats.jsx:84-86 | at most five entries, min(5, eligible) exactly, each attempted at least three times |
| DeckStats.HardestFromInput | src/pages/DeckStats.jsx:77-83 | every entry is an annotated input card |
| DeckStats.HardestAscending | src/pages/DeckStats.jsx:85-86 | the entries are in ascending accuracy |
| DeckStats.HardestStable | src/pages/DeckStats.jsx:85-86 | the entries of one accuracy are the first eligible cards of that accuracy, in input order |
| DeckStats.HardestAreLowest | src/pages/DeckStats.jsx:77-86 | an eligible card left out has an accuracy no lower than any entry: a five-lowest selection |
| Review.Advance | src/pages/Review.jsx:42-44 | the next index is 0 for no cards; otherwise it is in range, one more before the last card and 0 after it |
| Review.AdvanceTimesMod | src/pages/Review.jsx:42-44 | k answers from index i give (i + k) mod n |
| Review.RoundTrip | src/pages/Review.jsx:42-44 | n answers bring the index back where it was: the session is cyclic |
| Review.CyclicReview.constructor | src/pages/Review.jsx:8-34 | without a deck id the page stays loading; an error leaves no cards; data (`null` as none) becomes the cards; index 0, answer hidden |
| Review.CyclicReview.View | src/pages/Review.jsx:47-54 | loading while no deck is given, then "No cards" for an empty list, else card `currentIndex` with the answer shown or hidden as `showAnswer` says, as position `currentIndex + 1` of n |
| Review.CyclicReview.ShowAnswer | src/pages/Review.jsx:71-95 | "Show Answer" sets `showAnswer`; from the question screen the answer buttons become available and the button goes |
| Review.CyclicReview.HandleAnswer | src/pages/Review.jsx:36-45 | any answer hides the answer (so the answer buttons go) and sets the index to `Advance` of the old one; cards and loading state are untouched: nothing is recorded |
| Theme.InitialTheme | src/context/ThemeContext.jsx:29-39 | a stored "light" or "dark" is used; otherwise "dark" exactly when the system prefers dark; always a valid theme |
| Theme.Toggled | src/context/ThemeContext.jsx:51 | the flip maps "dark" to "light" and anything else to "dark" |
| Theme.ToggledTwice | src/context/ThemeContext.jsx:51 | two flips return a valid theme to itself |
| Theme.StoredThemeRestored | src/context/ThemeContext.jsx:29-53 | a theme written by the toggle is the one the next mount picks, whatever the system prefers |
| Theme.ThemeProvider.constructor | src/context/ThemeContext.jsx:24 | the theme starts as "light" |
| Theme.ThemeProvider.ApplyThemeClass | src/context/ThemeContext.jsx:12-21 | with a root, `dark` is present iff the theme is "dark", and the root's other classes are untouched; without a root nothing changes |
| Theme.ThemeProvider.Mount | src/context/ThemeContext.jsx:27-47 | with readable storage the theme becomes `InitialTheme` of the stored value and the class matches it; if reading throws, the theme stays and `dark` is removed |
| Theme.ThemeProvider.Toggle | src/context/ThemeContext.jsx:49-60 | the theme flips; it is stored under `flashcards-theme` when storage is writable, and still flips when it is not; the class matches the new theme |

## Left out

- Backend access: every select, insert, delete and update is a parameter
  holding the answer. How queries are built, row ownership (`user_id`)
  and ordering are the backend's concern. `src/lib/supabase*` and the
  auth context are not part of this model.
- Browser and library I/O: `FileReader`, the raw JSON text, JSZip's
  serialisation, the `Blob`/URL download, `window.confirm` and console
  logging. An archive entry holds the payload as a parsed value, not as
  the text `JSON.stringify` produces.
- The file input reset in `handleImportFile`: it only lets the same file be
  picked again.
- Randomness: the shuffle's order is given by `picks`. Its distribution is
  not modelled; `ShuffledPermutes` and `ShuffleReaches` say what can
  happen, not how likely it is.
- Floating point: every quantity is an exact rational. `Math.round` is
  `floor(x + 1/2)`. Sorting by accuracy compares exact quotients, so
  floating-point ties or misorderings are not modelled. The difference
  reaches the screen. For 23 correct answers of 40, the browser computes
  `23 / 40 * 100` as 57.49999999999999 and shows 57%. `Common.Percent`
  works on the exact 57.5 and gives 58. The same applies to the review
  score.
- Concurrency: each handler runs to completion before the next event,
  with each backend answer given up front. The model does not cover:
  - a reload that arrives after further answers;
  - the lost update between tabs;
  - React's batching of state updates.
- Rendering, routing and styling, including the "Back to Deck" link and the
  stats page header. DeckStats' loading of the deck and its cards
  (`cardData || []`) is left out. It is a select whose answer is the card
  list the statistics functions take.
- Card text columns: `Common.Card` has one `front`/`back` pair, named as
  in Decks.jsx and Review.jsx. ReviewDeck.jsx and DeckStats.jsx render
  `front_text`/`back_text` instead. The model does not tell the two
  apart; the text only reaches rendering, which is left out.
- Unicode: strings are ASCII. `toLowerCase`, `trim` and `\w` are modelled
  on ASCII only.
- JsValue.TypeErrorText: the message text is the wording of V8-based
  browsers; other engines word it differently.
- DecksPage.DeckList.ToggleSelectDeck: requires the id to belong to a
  shown deck, as the checkbox that calls it does. The function itself
  accepts any id.
- The route parameter is fixed for a page's lifetime. A change of deck
  without a remount is not modelled.
- `useTheme` throwing outside a provider: this is React context plumbing.
- Messages that the tests expect but the code does not produce:
  - "Invalid JSON file.";
  - "No decks selected.";
  - "No cards to review in this deck".

  The model follows the code. A failed parse shows the parser's own
  message, an empty bulk delete returns silently, and the empty review
  reads "No cards to review.".
- ReviewDeck.ResentUpdateChangesNothing: holds only when the second pass
  gives the same answer as the first. The review writes counters computed
  from the cards as loaded, and "Restart Review" does not reload them. So
  an answer that differs from the first pass's leaves the row unbalanced
  (`ReviewDeck.StaleResendUnbalances`). The model keeps the code as
  written: it does not refresh the cards after an update.
- The score on the results screen divides by the number of cards, as the
  code does, not by the number of answers. They coincide once a pass is
  finished (`ReviewDeck.ReviewSession.View`).
