# muchi-note card store, modelled in Dafny

muchi-note is a one-page calendar planner (`app/page.tsx`). Every day of the month grid holds an
ordered list of sticky cards, each with a numeric id, a text, a done mark and a palette colour.
The page keeps one mutable `state` object with three parts:

- an id counter, `nextId`;
- `cards`, a map from a `YYYY-MM-DD` date key to the ordered cards of that day;
- `weekVisibility`, per-month overrides recording which week rows are expanded or collapsed.

The handlers that change this state are modelled here:

- create a card;
- edit, recolour or mark a card done;
- delete a card, with a fallback scan over every day;
- drag cards to another day;
- reconcile the store with what the grid shows;
- collapse or expand a week;
- load a saved state;
- search every day.

The model is split into modules:

- `Strings` (`strings.dfy`): JavaScript string behaviour the page relies on. This covers the string order of `sort()` (as code-point order, which equals `sort()` on keys without characters beyond U+FFFF), `includes`, ASCII `toLowerCase` and `trim`.
- `DateKeys` (`date_keys.dfy`):
  - `formatDateKey` and `formatMonthKey` with `padStart`;
  - that date keys sort chronologically;
  - how the search turns a key back into a year and month (`split("-").map(Number)`).
- `Cards` (`cards.dfy`):
  - the card record and the card element's id attribute;
  - the colour cycle;
  - id minting and the defaults `createCard` fills in;
  - the week-collapse rule and its toggle;
  - where the drag placeholder goes.
- `Buckets` (`buckets.dfy`): the day-to-cards map as a value, with every store operation written as a function of the old map. This covers lookup, upsert, delete and its fallback, relocation on drop, single-card sync and month reconciliation. The store invariants are proved as lemmas about these functions.
- `Persist` (`persist.dfy`): the field-by-field rule by which `loadState` accepts a saved record.
- `Search` (`search.dfy`): the global search over sorted date keys.
- `NoteStore` (`store.dfy`): the `state` object as a class whose methods update its fields in place, loop for loop as the handlers do. Each method's postcondition ties the new state to the matching `Buckets`/`Persist` function of the old state.

The page reads the following from the browser. Here they are parameters:

- a day cell's date attribute: a string, where "" stands for a missing attribute;
- a card element's id attribute: `IdAttr`, which says whether the attribute is missing, empty, a numeral or something else;
- the order of `Object.keys(state.cards)`;
- the sorted key list of the search;
- the rendered day cells (`DayCell`, `VisualCard`);
- the pointer and midpoint coordinates, as integers;
- whether a week row contains today;
- the parsed contents of storage.

## Model

| member | source | states |
|---|---|---|
| Buckets.CardsFor | app/page.tsx:177-180 | the stored list of a day, or the empty list for a day without one |
| Buckets.FirstIndex | app/page.tsx:190 | the first position holding the id; -1 exactly when no card has it |
| Buckets.FindCardIndex | app/page.tsx:190 | the `findIndex` loop returns that first position |
| Buckets.Upserted | app/page.tsx:187-194 | a known id replaces the first card with that id, keeping length and position; a new id is appended at the end; every other card is unchanged |
| Buckets.UpsertedIdempotent | app/page.tsx:187-194 | upserting the same card twice equals upserting it once |
| Buckets.Upsert | app/page.tsx:187-194 | only the card's day changes; that day then exists; no empty day is created |
| Buckets.WithoutId | app/page.tsx:200 | no card with the id survives; the list shrinks exactly when it held the id; without the id the list is unchanged |
| Buckets.WithoutIdAppend | app/page.tsx:200 | the surviving cards keep their order |
| Buckets.WithoutIdCounts | app/page.tsx:200 | exactly the cards with the id go: every other id keeps its count |
| Buckets.Delete | app/page.tsx:196-205 | a day without a list gives false and no change; otherwise the answer is whether the day held the id, the day loses every card with it, the key goes when the list empties, and no other day changes |
| Buckets.FailedDeleteChangesNothing | app/page.tsx:196-205 | in a store without empty days, a delete that finds nothing leaves the store exactly as it was |
| Buckets.DeleteKeepsNoEmptyBuckets | app/page.tsx:196-205 | delete keeps the store free of empty days |
| Buckets.DeleteFromAny | app/page.tsx:390-396 | the fallback loop: try each key in `Object.keys` order and stop at the first delete that succeeds (characterised by `DeleteFromAnyTouchesOne`) |
| Buckets.FirstHolder | app/page.tsx:390-396 | the key at which that loop stops: the first listed day holding a card with the id |
| Buckets.FirstHolderReadsDays | app/page.tsx:389-395 | the day the fallback scan stops at depends only on what each day holds |
| Buckets.FirstHolderHolds | app/page.tsx:389-395 | the scan stops at a listed day holding the card; if it stops nowhere, no listed day holds it |
| Buckets.DeleteFromAnyTouchesOne | app/page.tsx:389-395 | the scan deletes from the first day in key order that holds the card and changes no other day |
| Buckets.DeleteCardSpec | app/page.tsx:384-398 | when the scan order lists every day left after the delete from the card's own day (the keys are read only then): the card is deleted iff some day held it; at most one day changes, and that day loses the card; a miss means no day holds it |
| Buckets.DeleteCard | app/page.tsx:385-397 | delete from the card's own day, and on a miss run the fallback loop over the keys (characterised by `DeleteCardSpec`) |
| Buckets.DeleteHandled | app/page.tsx:379-400 | nothing is deleted without a date, or without an id attribute that is a finite number; otherwise the delete with fallback is applied |
| Buckets.TotalUpdate | app/page.tsx:659-683 | replacing one day's list changes the card count by the difference in that day's length |
| Buckets.TotalWithout | app/page.tsx:673 | dropping a day removes exactly its cards from the card count |
| Buckets.CountIdAppend | app/page.tsx:659-683 | counting a card id over two lists joined is counting over each |
| Buckets.RemoveAt | app/page.tsx:672 | `splice(i, 1)` removes one card: putting it back at `i` restores the list |
| Buckets.Detach | app/page.tsx:670-673 | `oldList.splice(idx, 1)`, then `delete state.cards[oldKey]` when the list is left empty |
| Buckets.AppendTo | app/page.tsx:677-679 | `ensureCardList(newKey).push(obj)`: the card goes last on the day, creating the day when it had no list |
| Buckets.MoveOne | app/page.tsx:663-683 | a card with no old day, dropped on its own day, with a non-finite id or not found, changes nothing |
| Buckets.MoveOneRelocates | app/page.tsx:663-683 | a move takes the first card with the id out of the old day, keeping the rest in order; it appends that card to the new day; the old key goes iff that day empties; no other day changes |
| Buckets.MoveOneKeepsNoEmptyBuckets | app/page.tsx:663-683 | a move keeps the store free of empty days |
| Buckets.MoveOneKeepsTotal | app/page.tsx:663-683 | a move keeps the number of stored cards |
| Buckets.MoveOneShiftsCard | app/page.tsx:663-683 | a move is not a copy: the old day has one card with the id fewer, the new day one more |
| Buckets.MoveThereAndBack | app/page.tsx:663-683 | moving a card away and straight back restores the other day; the card ends up last on its own day |
| Buckets.DropAll | app/page.tsx:657-682 | the `draggingCards.forEach` loop: `MoveOne` for each dragged card in order, with its old date and its numeric id |
| Buckets.DropAllKeeps | app/page.tsx:642-683 | a drop keeps the card count and the absence of empty days; it leaves every day that is neither the target nor a source as it was |
| Buckets.SyncOne | app/page.tsx:223-235 | an element with no date, a falsy id attribute or a non-finite id changes nothing; otherwise its card is upserted into its day and no other day changes |
| Buckets.SyncOneIdempotent | app/page.tsx:223-235 | syncing the same element twice equals syncing it once |
| Buckets.Harvested | app/page.tsx:251-255 | the stored card carries the element's id, text and done mark; a missing colour becomes "default" |
| Buckets.Harvest | app/page.tsx:246-258 | a cell never yields more cards than it has elements |
| Buckets.HarvestEmptyIff | app/page.tsx:246-258 | a cell yields no cards exactly when none of its elements has a finite id |
| Buckets.HarvestAppend | app/page.tsx:246-258 | harvesting goes element by element, in order |
| Buckets.HarvestKeepsAll | app/page.tsx:246-258 | when every element has a finite id, the cell yields one card per element, each read off its element |
| Buckets.ApplyCell | app/page.tsx:240-258 | one day cell: no date skips it, no card elements deletes its day, otherwise its day becomes the harvested list |
| Buckets.Reconcile | app/page.tsx:237-261 | `syncCurrentMonthFromDom`: every cell applied in document order (characterised by `ReconcileAt`) |
| Buckets.ReconcileAt | app/page.tsx:237-261 | after reconciliation each day matches its last rendered cell: no cell keeps the day, an empty cell removes it, any other cell sets it to the harvested list |
| Buckets.ReconcileIdempotent | app/page.tsx:237-261 | reconciling with the same rendering twice equals reconciling once |
| Buckets.ReconcileNoEmptyBuckets | app/page.tsx:237-261 | reconciliation keeps the store free of empty days iff no rendered cell with elements yields an empty list |
| Cards.NumberOf | app/page.tsx:227-228 | `Number(idStr)` when finite: a missing attribute or junk is not a finite number, the empty string reads as 0 |
| Cards.IsTruthy | app/page.tsx:226 | an id attribute string is truthy exactly when it is present and non-empty |
| Cards.ColorIndex | app/page.tsx:417 | `indexOf` in the palette: a position holding the colour, or -1 exactly when no palette entry is the colour |
| Cards.NextColor | app/page.tsx:416-418 | `""` counts as "default"; the palette entry after the colour's `indexOf`, wrapping; -1 restarts at "default" (characterised by `NextColorCases`) |
| Cards.NextColorCases | app/page.tsx:414-418 | the next colour is always in the palette; a palette colour advances to its successor; "" counts as "default" and gives "yellow"; any other colour gives "default" |
| Cards.NextColorAt | app/page.tsx:34 | each palette colour is followed by the next one, wrapping from "pink" to "default" |
| Cards.FourPressesReturn | app/page.tsx:414-418 | four presses bring any palette colour back |
| Cards.RecoloredPeriodic | app/page.tsx:414-418 | from a palette colour the sequence of colours repeats every four presses |
| Cards.MintId | app/page.tsx:325-326 | an id above zero is kept and the counter stays; anything else takes the counter's value and the counter grows by one |
| Cards.CardFrom | app/page.tsx:322-324 | the id is the minted one; a given text or colour is kept as given ("" included), a missing text is "", done holds only when given as true, a missing colour is "default" |
| Cards.SavedVisibility | app/page.tsx:735 | `monthVisibility[rowIndex]`: the saved override of a row, or nothing when the month or the row has none |
| Cards.IsCollapsed | app/page.tsx:735-737 | a saved true shows the row; a saved false collapses it; with nothing saved, the row is collapsed iff it does not contain today |
| Cards.ToggledVisibility | app/page.tsx:743-757 | after a click the row renders flipped whatever its default; every other row keeps its saved override |
| Cards.ToggleTwiceRestoresRendering | app/page.tsx:735-757 | two clicks on a rendered row bring back its rendered state |
| Cards.Undragged | app/page.tsx:611-612 | filtering out the dragged cards never adds cards |
| Cards.UndraggedSingle | app/page.tsx:611-612 | a dragged card is dropped from the filter; any other card contributes its midpoint |
| Cards.UndraggedExtremes | app/page.tsx:611-612 | with no card dragged every midpoint is kept, in display order; with every card dragged none is |
| Cards.UndraggedAppend | app/page.tsx:611-612 | the filter goes card by card, in display order |
| Cards.PlaceholderSlot | app/page.tsx:614-638 | the placeholder goes before the first non-dragged card whose midpoint lies below the pointer; every card before that slot is at or above the pointer; with no such card it goes at the end |
| DateKeys.IntToString | app/page.tsx:115-118 | `String(n)` of any integer: a minus sign before the digits of a negative number |
| DateKeys.Pad2 | app/page.tsx:116-117 | `String(n).padStart(2, "0")`: a one-digit numeral gets a leading zero |
| DateKeys.FormatDateKey | app/page.tsx:114-119 | `formatDateKey`: year, padded month number (index plus one) and padded day, joined by dashes (characterised by `DateKeyShape`, `DateKeyInjective` and `DateKeyOrder`) |
| DateKeys.NatToString | app/page.tsx:114-118 | `String(n)` is a non-empty run of digits without a leading zero |
| DateKeys.ParseNatToString | app/page.tsx:856 | reading the digits of `String(n)` gives back n |
| DateKeys.IntToStringInjective | app/page.tsx:114-118 | different numbers print differently |
| DateKeys.Pad2Digits | app/page.tsx:116-117 | `padStart(2, "0")` of a number below 100 is its two digits |
| DateKeys.Pad2Injective | app/page.tsx:116-117 | padded numbers below 100 differ when the numbers do |
| DateKeys.Pad2Order | app/page.tsx:116-117 | padded numbers below 100 sort like the numbers |
| DateKeys.FormatMonthKey | app/page.tsx:120-121 | the month key is the shared prefix of every date key of that month |
| DateKeys.DateKeyShape | app/page.tsx:114-119 | a date key with a four-digit year has ten characters, with dashes at positions 4 and 7 |
| DateKeys.DateKeyInjective | app/page.tsx:114-119 | different dates give different keys |
| DateKeys.DateKeyOrder | app/page.tsx:842 | for four-digit years, sorting date keys as strings is sorting the dates chronologically |
| DateKeys.Split | app/page.tsx:856 | `split("-")`: the pieces between separators, always at least one |
| DateKeys.DigitsNumber | app/page.tsx:856 | `Number` of a piece of a date key: the value of a digit string, "" reads as 0, anything else is not a number |
| DateKeys.SearchedYearMonth | app/page.tsx:856 | `split("-").map(Number)` destructured into year and month (characterised by `SearchedYearMonthOfDateKey`) |
| DateKeys.SplitWithout | app/page.tsx:856 | `split` of a string without the separator is that string alone |
| DateKeys.SplitAt | app/page.tsx:856 | `split` cuts at the first separator and continues with the rest |
| DateKeys.SearchedYearMonthOfDateKey | app/page.tsx:856 | reading a date key back yields its year and its month number (month index plus one) |
| Strings.LexLess | app/page.tsx:842 | the default string comparison of `sort()`: lexicographic by character, a proper prefix first |
| Strings.LexLessIrreflexive | app/page.tsx:842 | no key sorts before itself |
| Strings.LexLessAsymmetric | app/page.tsx:842 | two keys never sort before each other |
| Strings.LexLessTransitive | app/page.tsx:842 | the sort order is transitive |
| Strings.LexLessTotal | app/page.tsx:842 | any two different keys are ordered one way or the other |
| Strings.LexLessConcat | app/page.tsx:842 | strings with equal-length heads compare by head first, then by tail |
| Strings.Contains | app/page.tsx:847 | `s.includes(q)`: `q` is a prefix of `s` or of one of its suffixes |
| Strings.ContainsIffOccurs | app/page.tsx:847 | `includes` holds iff the query occurs at some position |
| Strings.Lower | app/page.tsx:847 | lowercasing keeps the length and maps each code unit |
| Strings.TrimStart | app/page.tsx:818 | it drops only leading white space and stops at a non-space |
| Strings.TrimEnd | app/page.tsx:818 | it drops only trailing white space and stops at a non-space |
| Strings.Trim | app/page.tsx:818 | `trim` is a slice cut only from white space, starting and ending with a non-space |
| Strings.TrimOfTrimmed | app/page.tsx:818 | a trimmed string is its own trim |
| Search.Normalized | app/page.tsx:818 | `value.trim().toLowerCase()` |
| Search.NormalizedIdempotent | app/page.tsx:818 | normalizing an already normalized query changes nothing |
| Search.Matches | app/page.tsx:847 | a card matches when its lowercased text contains the query |
| Search.FirstMatch | app/page.tsx:847 | `list.find(...)`: the first matching card of a day (characterised by `FirstMatchFinds`) |
| Search.FirstMatchFinds | app/page.tsx:847 | `find` reports nothing exactly when no card matches, and otherwise the first card that does |
| Search.EarliestMatchUnique | app/page.tsx:842-853 | at most one day is the earliest in key order with a match |
| Search.EarliestMatchIsEarliestDate | app/page.tsx:842-853 | among four-digit-year date keys, the earliest matching key is the earliest matching date |
| Search.SortedBefore | app/page.tsx:842 | in the sorted key list, a key sorting before another sits at an earlier position |
| Search.FirstMatchingKeyIsEarliest | app/page.tsx:844-853 | the first listed key whose day matches is the unique earliest matching day |
| Search.NoKeyMatches | app/page.tsx:844-853 | if no listed day matches, no day is the earliest match |
| Search.FirstMatchingDay | app/page.tsx:844-853 | the scan loop stops at the first sorted key whose day matches, or passes them all |
| Search.GlobalSearch | app/page.tsx:817-871 | an empty query (after trim and lowercase) does nothing. A hit names the earliest matching day and its first matching card, with a non-empty key and a non-zero id. A miss means there is no match, or the earliest one has an empty key or id 0 |
| Persist.Load | app/page.tsx:151-167 | no entry or a non-object keeps the state; a read or parse failure resets to the initial state; each present field replaces its part; a counter is taken only if above zero |
| Persist.LoadTakesPositiveCounter | app/page.tsx:161 | a saved counter is taken exactly when it is a number above zero |
| Persist.LoadKeepsCounterPositive | app/page.tsx:151-167 | a counter above zero stays above zero after loading |
| Persist.LoadIdempotent | app/page.tsx:151-167 | loading the same stored state twice gives what loading it once gives |
| NoteStore.HarvestCards | app/page.tsx:246-258 | the inner loop of the month sync builds the harvested list of a cell |
| NoteStore.Store.constructor | app/page.tsx:101 | the store starts with counter 1, no cards and no week overrides |
| NoteStore.Store.LoadState | app/page.tsx:151-167 | the new state is `Load` of the old one |
| NoteStore.Store.EnsureCardList | app/page.tsx:182-185 | it returns the day's list; a day without one gets an empty list |
| NoteStore.Store.UpsertCard | app/page.tsx:187-194 | the cards become `Upsert` of the old cards; counter and week overrides are unchanged |
| NoteStore.Store.DeleteCardFromState | app/page.tsx:196-205 | the answer and the new cards are `Delete` of the old cards |
| NoteStore.Store.SyncOneCard | app/page.tsx:223-235 | the cards become `SyncOne` of the old cards |
| NoteStore.Store.SyncCurrentMonth | app/page.tsx:237-261 | the cell loop leaves the cards at `Reconcile` of the old cards |
| NoteStore.Store.CreateCard | app/page.tsx:322-346 | the card gets the minted id and the defaults; the counter advances as minting says; the card is upserted into its day unless it is rendered from the state or has no day |
| NoteStore.Store.DeleteButton | app/page.tsx:376-412 | the early-exit scan leaves the cards at the delete with fallback, then reconciled with the rendered cells |
| NoteStore.Store.Relocate | app/page.tsx:670-680 | splice out of the old day, prune it if empty, push onto the new day |
| NoteStore.Store.MoveCard | app/page.tsx:659-682 | the cards become `MoveOne` of the old cards |
| NoteStore.Store.DropCards | app/page.tsx:642-683 | no dragged cards or no target date leaves the cards; otherwise each dragged card is moved in turn (`DropAll`) |
| NoteStore.Store.ToggleWeekRow | app/page.tsx:743-757 | the overrides become `ToggledVisibility` of the old ones |
| NoteStore.Store.PressColor | app/page.tsx:414-424 | the element takes the next colour; its card is synced and the month reconciled |
| NoteStore.Store.ToggleDone | app/page.tsx:366-374 | the element's done mark flips; its card is synced and the month reconciled |

## Left out

- DOM construction and everything visual: class lists, badges, hints, focus, selection, highlights, scrolling. The rendered grid enters only as the `DayCell` sequence given to reconciliation and as the attributes handed to the handlers.
- `localStorage`, `JSON.parse` and `JSON.stringify`: storage contents enter `Persist.Load` already parsed, and `saveState` is a write with no effect on the state.
- The inner shape of loaded data is not checked by the page (`state.cards = parsed.cards` is taken as it is). The model assumes a loaded `cards` map of well-formed card lists.
- Airtable upload and download, and the backup file download: network and browser I/O.
- `Date` arithmetic: calendar enumeration, month navigation, "today". The year, month index and day reach `DateKeys` as numbers, and "contains today" reaches `Cards.IsCollapsed` as a flag.
- Month-mode search (it scans rendered elements' `innerText`), and the `setTimeout` that highlights the hit after navigation.
- Timers, toasts and the React StrictMode start-up guard.
- Strings.LexLess: strings are sequences of Unicode code points, so `LexLess` compares code points. JavaScript's `sort()` compares UTF-16 code units, and the two orders differ for strings containing characters beyond U+FFFF (a character above U+FFFF sorts before one in U+E000–U+FFFF in JavaScript, after it here). Date keys consist of ASCII digits and dashes, where the two orders agree.
- Strings.Lower: lowercasing is ASCII only; other Unicode case mappings of `toLowerCase` are not modelled.
- Card ids are integers: fractional ids, `NaN` and infinities are not modelled. `Number()` of a signed, spaced or hexadecimal numeral is not modelled either, because `IdAttr` collapses every non-numeral to "not a finite number". `Number("")`, which is 0, is kept as `EmptyAttr`.
- `DateKeys.DigitsNumber` reads only plain digit strings; the search uses it on date keys, which are always digits and dashes.
- Cards.PlaceholderSlot: midpoints and the pointer are integers; the real page computes floating-point midpoints from element rectangles.
- Search.GlobalSearch: the key order is a parameter, required to be strictly sorted and to list exactly the stored days. `Object.keys(...).sort()` produces such a list for keys without characters beyond U+FFFF.
- NoteStore.Store.DeleteButton: the order in which `Object.keys` enumerates the days is a parameter.
- The drop handler calls `saveState` but not the month reconciliation. `NoteStore.Store.DropCards` follows the code and does not reconcile.
- No undo history, scroll range manager or paste sanitizer exists in `app/page.tsx`, so none is modelled.
- `syncCurrentMonthFromDom` stores an empty list for a rendered cell whose card elements all lack a finite id. `Buckets.ReconcileNoEmptyBuckets` states exactly when the no-empty-day invariant survives, rather than claiming it always does.
