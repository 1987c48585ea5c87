# Sign app core in Dafny

This project models the logic of the "sign" mobile app's message engine. The app shows short guidance cards from four packs: free, love, career and finance. The model covers these parts:

- **Content engine** (`contentEngine.ts`):
  - the weighted pick of a card;
  - the pick filtered by intent and tone;
  - the lookup of a card by id;
  - the reproducible daily card: sorted pack names, an FNV-1a hash of the seed text, and the first value of the `mulberry32` generator.
- **Energy quota** (`energy.ts`):
  - a state of three fields kept under one storage key;
  - reset on each new local day;
  - consumed down to zero and restored up to three;
  - premium users are never charged.
- **Dates** (`date.ts`):
  - `toLocalDateISO`;
  - `isYesterday`, with JavaScript's `Date` constructor semantics (month roll-over, two-digit years meaning 19xx).
- **Journal store** (`journalRepo.ts`), over two in-memory tables (`draws` and `favorites`):
  - the JSON string-array codec of the id lists;
  - insert, lookup by id, and the newest-first paged and searched listing;
  - note update;
  - favourite toggle and the favourites join.
- **Spread screen** (`spread.tsx`), its non-UI logic:
  - drawing distinct cards from all packs;
  - the left-to-right reveal rule;
  - the mode and count rule;
  - the pack ids recorded for a spread;
  - the condition under which a spread is saved, once.

## Modules and files

| file | module | what it holds |
|---|---|---|
| optional.dfy | `Optional` | `Option` (for `undefined`/`null`) and `Result` (for a storage call that rejects) |
| strings.dfy | `Strings` | digits, `padStart`, `split`/join, ECMAScript `trim`, `Number()` on decimal text, substring search |
| content.dfy | `Content` | cards, pack ids, packs as abstract data, `flatMap(loadPack)` |
| selector.dfy | `Selector` | `pickWeighted`, `pickForIntent`, `findCardById` |
| prng.dfy | `Prng` | UTF-16 code units, `hashSeed` (FNV-1a on `bv32`), `mulberry32` |
| daily.dfy | `DailyPick` | `deterministicDailyPick` |
| calendar.dfy | `Calendar` | proleptic Gregorian dates, `toLocalDateISO`, `new Date(y, m, d)`, `setDate`, `isYesterday` |
| energy.dfy | `Energy` | the energy store and its four operations |
| jsonarray.dfy | `JsonArray` | `JSON.stringify` of a string array and `parseArray` |
| rows.dfy | `Rows` | `WHERE` filtering, stable `ORDER BY … DESC`, `LIMIT`/`OFFSET` windows |
| journal.dfy | `Journal` | the two tables and the journal operations |
| spread.dfy | `Spread` | the spread screen's logic |

Parameters stand in for the non-deterministic inputs:

- the clock (`new Date()`, `Date.now()`);
- `Math.random` (a real in [0, 1), or `rolls(k)` for the k-th pick of a spread);
- generated ids.

## Model

| member | source | states |
|---|---|---|
| Content.AllCards | sign-app/app/spread.tsx:14-15 | a card is in the concatenation exactly when it is in one of the listed packs |
| Selector.PickWeighted | sign-app/src/services/contentEngine.ts:32-50 | the result is absent exactly for an empty list, otherwise a card of the list; a total weight ≤ 0 gives the first card; otherwise it is the card at which the running threshold first drops to ≤ 0 |
| Selector.PrefixOfAll | sign-app/src/services/contentEngine.ts:37 | the running weight sum over all cards is the total weight (`reduce` with a missing weight counting 1) |
| Selector.PickIndex | sign-app/src/services/contentEngine.ts:38-49 | the chosen position is in range; it is 0 for a non-positive total and otherwise the first stop of the threshold scan |
| Selector.CumulativeInterval | sign-app/src/services/contentEngine.ts:42-49 | for non-negative weights, a positive total and u in [0,1), card k is picked exactly when u·total lies in (W(k), W(k+1)] (at most W(1) for the first card), where W(k) is the weight sum of the first k cards; card k's interval is as long as its weight |
| Selector.StopInterval | sign-app/src/services/contentEngine.ts:43-48 | the stopping card's cumulative interval contains the threshold |
| Selector.ThresholdBelowTotal | sign-app/src/services/contentEngine.ts:42 | `rng() * total` is below the total, so the loop always stops at some card and the fallback line is not reached |
| Selector.FilterCards | sign-app/src/services/contentEngine.ts:55-57 | exactly the cards whose category equals the intent and whose tone equals the tone, an absent filter matching every card |
| Selector.PickForIntent | sign-app/src/services/contentEngine.ts:52-59 | a returned card comes from the available packs (all packs when the list is missing or empty) and matches intent and tone; nothing is returned exactly when no card of those packs matches |
| Selector.FindInCards | sign-app/src/services/contentEngine.ts:95 | `find` returns the first card with the id, and nothing exactly when no card has it |
| Selector.FindInPacksIsFlatSearch | sign-app/src/services/contentEngine.ts:93-101 | searching pack by pack gives the same answer as searching the concatenated packs |
| Selector.FindCardById | sign-app/src/services/contentEngine.ts:93-101 | a found card has the id and lies in one of the four packs; nothing is found exactly when no card of any pack has the id |
| Prng.CodeUnitsOf | sign-app/src/services/contentEngine.ts:64 | `charCodeAt` sees one code unit for a character below U+10000 and a surrogate pair otherwise |
| Prng.Utf16 | sign-app/src/services/contentEngine.ts:63-64 | the code units of a text are at least as many as its characters, and exactly as many when every character is below U+10000 |
| Prng.HashSeed | sign-app/src/services/contentEngine.ts:61-68 | the loop with `Math.imul` and `>>> 0` computes 32-bit FNV-1a over the UTF-16 code units |
| Prng.ToUnitInterval | sign-app/src/services/contentEngine.ts:77 | dividing an unsigned 32-bit value by 2^32 gives a number in [0, 1) |
| Prng.States | sign-app/src/services/contentEngine.ts:71-74 | call i of the generator sees the seed advanced i+1 times by 0x6d2b79f5 modulo 2^32 |
| Prng.Outputs | sign-app/src/services/contentEngine.ts:70-79 | every generated value lies in [0, 1) |
| Prng.OutputsPrefix | sign-app/src/services/contentEngine.ts:70-79 | drawing more values from a seed never changes the earlier ones |
| Prng.MixVectors | sign-app/src/services/contentEngine.ts:70-79 | the first values of `mulberry32(0)` and `mulberry32(42)` are 0x4434b462 / 2^32 (about 0.26643) and 0x99e1ef7c / 2^32 (about 0.60110), as the `Math.imul` and unsigned-shift arithmetic computes them |
| Prng.FirstOutput | sign-app/src/services/contentEngine.ts:88-90 | the value the daily pick uses is the generator's first output and lies in [0, 1) |
| DailyPick.RankFollowsNames | sign-app/src/services/contentEngine.ts:86 | the fixed rank career < finance < free < love agrees with JavaScript's default string order on the pack names |
| DailyPick.SortPacks | sign-app/src/services/contentEngine.ts:86 | `[...ids].sort()` is a permutation of its input in name order |
| DailyPick.NormalizePacks | sign-app/src/services/contentEngine.ts:86 | an empty list becomes the default list; a non-empty one becomes its own permutation, sorted by name |
| DailyPick.SameMembers | sign-app/src/services/contentEngine.ts:86-89 | the normalised list holds the same packs as the list the pick draws from |
| DailyPick.AllCardsFromPacks | sign-app/src/services/contentEngine.ts:89 | the cards of the listed packs are empty exactly when every listed pack is, and each card comes from a listed pack |
| DailyPick.DeterministicDailyPick | sign-app/src/services/contentEngine.ts:81-91 | a daily card comes from one of the packs used; there is no card exactly when every such pack is empty |
| DailyPick.OrderIndependent | sign-app/src/services/__tests__/contentEngine.test.ts:38-44 | the daily card depends on the allowed packs only as a multiset, so any reordering of the list gives the same card |
| DailyPick.EmptyListIsNotAllPacks | sign-app/src/services/contentEngine.ts:86-87 | an empty pack list and the list of all four packs produce different seed texts |
| Strings.NatToStringRoundTrip | sign-app/src/lib/date.ts:2-5 | the decimal text of a number reads back as that number |
| Strings.PadStartShape | sign-app/src/lib/date.ts:3-4 | `padStart` keeps the text at the end and fills only at the front |
| Strings.SplitPieces | sign-app/src/lib/date.ts:9 | no piece of `split(c)` contains `c` |
| Strings.SplitJoin | sign-app/src/lib/date.ts:9 | joining the pieces of `split(c)` with `c` gives the original text |
| Strings.SplitAfterPiece | sign-app/src/lib/date.ts:9 | text before the first separator is the first piece, and the rest is split on |
| Strings.NumberOfDigits | sign-app/src/lib/date.ts:9 | `Number` of a non-empty decimal digit text is its value |
| Strings.NumberOfBlank | sign-app/src/lib/date.ts:9 | `Number` of blank text is 0 |
| Strings.TrimStartDrops | sign-app/src/services/journalRepo.ts:80 | `trim` removes only leading white space, and the result starts with a non-space |
| Strings.TrimEndDrops | sign-app/src/services/journalRepo.ts:80 | `trim` removes only trailing white space, and the result ends with a non-space |
| Strings.ContainsMeansOccurs | sign-app/src/services/journalRepo.ts:85 | `LIKE '%t%'` (substring search) holds exactly when `t` occurs at some position |
| Calendar.DaysInMonth | sign-app/src/lib/date.ts:12 | month lengths are 28 to 31 days, by the Gregorian leap-year rule |
| Calendar.PredNumber | sign-app/src/lib/date.ts:11-12 | the calendar predecessor is the day numbered one less |
| Calendar.SuccNumber | sign-app/src/lib/date.ts:11-12 | the calendar successor is the day numbered one more |
| Calendar.SuccPred | sign-app/src/lib/date.ts:11-12 | the successor of the predecessor is the date itself |
| Calendar.PredSucc | sign-app/src/lib/date.ts:11-12 | the predecessor of the successor is the date itself |
| Calendar.DayNumberInjective | sign-app/src/lib/date.ts:11-12 | distinct valid dates have distinct day numbers |
| Calendar.AddDaysNumber | sign-app/src/lib/date.ts:12 | moving by n days changes the day number by exactly n |
| Calendar.SetDateNumber | sign-app/src/lib/date.ts:12 | `setDate(d)` moves the day number by d minus the current day, rolling over months and years |
| Calendar.SetDateBackOne | sign-app/src/lib/date.ts:11-12 | `setDate(getDate() - 1)` is the calendar predecessor, also on the first of a month or year |
| Calendar.ConstructInRange | sign-app/src/lib/date.ts:10 | `new Date(y, m - 1, d)` with an in-range month and day names that day of the full year (19xx for y < 100) |
| Calendar.TwoDigitsValue | sign-app/src/lib/date.ts:3-4 | a padded month or day has two digits and reads back as its value |
| Calendar.FormatInjective | sign-app/src/lib/date.ts:1-6 | different dates from year 0 on format differently |
| Calendar.ToLocalDateISO | sign-app/src/lib/date.ts:1-6 | from year 0 on, the text splits at its dashes into the unpadded year digits and the month and day padded to exactly two digits, and these pieces read back, under `split('-').map(Number)`, as the year, month and day |
| Calendar.ParseFormatted | sign-app/src/lib/date.ts:9-10 | from year 100 on, reading back a formatted date gives the same date |
| Calendar.ParseTwoDigitYear | sign-app/src/lib/date.ts:9-10 | a formatted year below 100 reads back as 1900 + year |
| Calendar.IsYesterday | sign-app/src/lib/date.ts:8-14 | when today's text reads as a day, the answer is true exactly for the formatted calendar day before it; unreadable text compares with `NaN-NaN-NaN` |
| Calendar.IsYesterdayIffPred | sign-app/src/lib/date.ts:8-14 | from year 100 on, `isYesterday(d, today)` holds exactly when `d` is the formatted calendar predecessor of today |
| Calendar.IsYesterdayTwoDigitYear | sign-app/src/lib/date.ts:8-14 | for today's year below 100, the comparison is with the day before the same date in 19xx |
| Calendar.FormatExample | sign-app/src/lib/__tests__/date.test.ts:4-7 | 5 January 2025 is written `2025-01-05` |
| Calendar.YesterdayExample | sign-app/src/lib/__tests__/date.test.ts:9-12 | `2025-01-04` is the day before `2025-01-05`, and `2025-01-03` is not |
| Calendar.PredExamples | sign-app/src/lib/date.ts:11-12 | the predecessor rolls over leap Februaries by the century rules and over New Year |
| Energy.Decode | sign-app/src/services/energy.ts:35-43 | the shape check accepts only a stored object whose three fields have the right types, and then yields exactly the state that was stored |
| Energy.DecodeEncode | sign-app/src/services/energy.ts:31-42 | a state written as JSON passes the shape check and reads back unchanged |
| Energy.Write | sign-app/src/services/energy.ts:53-56 | after `writeState` the store holds the state under the energy key, and every other key is untouched |
| Energy.ReadState | sign-app/src/services/energy.ts:27-51 | a valid stored state is returned with nothing written; otherwise a full, non-premium state dated today is returned and written back |
| Energy.ResetIfNewDay | sign-app/src/services/energy.ts:62-74 | the result is dated today and stored, with the premium flag kept; a state already dated today is returned as read; any other date refills to 3 |
| Energy.ConsumeEnergy | sign-app/src/services/energy.ts:76-87 | after the day's reset, a non-premium state with energy left loses one unit and the result is stored; otherwise the state stays as reset |
| Energy.RestoreOneEnergy | sign-app/src/services/energy.ts:89-97 | after the day's reset, a non-premium state gains one unit capped at 3 and is stored; a premium state is unchanged |
| Energy.ResetIdempotent | sign-app/src/services/energy.ts:62-74 | resetting twice on the same day is the same as resetting once |
| Energy.RangePreserved | sign-app/src/services/energy.ts:76-97 | a stored quota within 0..3 stays within 0..3 through every operation |
| Energy.Bounds | sign-app/src/services/energy.ts:82-95 | consuming never goes below zero and restoring never goes above the maximum |
| Energy.PremiumUnchanged | sign-app/src/services/energy.ts:62-97 | no operation changes the premium flag |
| Energy.FirstRun | sign-app/src/services/__tests__/energy.test.ts:33-38 | an empty store gives 3 units, not premium, reset today, and saves that state |
| Energy.ResetsOnDateChange | sign-app/src/services/__tests__/energy.test.ts:40-53 | a drained quota saved on another day is full again today and dated today |
| JsonArray.EscapeChar | sign-app/src/services/journalRepo.ts:27 | `JSON.stringify` escapes exactly the quote, the backslash and the control characters |
| JsonArray.HexRoundTrip | sign-app/src/services/journalRepo.ts:27-31 | a hex digit reads back as its value |
| JsonArray.EscapeCharRoundTrip | sign-app/src/services/journalRepo.ts:27-31 | an escaped character reads back as itself |
| JsonArray.StringRoundTrip | sign-app/src/services/journalRepo.ts:27-31 | an escaped string followed by its closing quote reads back as the string |
| JsonArray.ItemsRoundTrip | sign-app/src/services/journalRepo.ts:27-31 | the serialised elements of a non-empty list read back as the list, leaving the text after them |
| JsonArray.SkipWsDrops | sign-app/src/services/journalRepo.ts:30 | `JSON.parse` skips only white space before a value |
| JsonArray.ReadItemsComma | sign-app/src/services/journalRepo.ts:30 | an element, a comma and further elements read as one longer list |
| JsonArray.SerializeArray | sign-app/src/services/journalRepo.ts:27-35 | `parseArray` reads the text back as the same list: `parseArray(serializeArray(xs)) == xs` for every list of strings |
| JsonArray.ReadArrayItems | sign-app/src/services/journalRepo.ts:30-32 | a bracket followed by string elements that end the text parses as those elements |
| JsonArray.ParseArray | sign-app/src/services/journalRepo.ts:28-35 | text that does not open with `[` (after white space) decodes to the empty list, and a non-empty result is the array the text holds |
| Rows.FilterMembers | sign-app/src/services/journalRepo.ts:85 | `WHERE` keeps exactly the rows that satisfy the condition |
| Rows.InsertSorted | sign-app/src/services/journalRepo.ts:86 | inserting into a newest-first list keeps it newest first and adds exactly that row |
| Rows.SortDescSorted | sign-app/src/services/journalRepo.ts:86 | `ORDER BY createdAt DESC` yields a newest-first permutation of the rows |
| Rows.WindowSorted | sign-app/src/services/journalRepo.ts:86-87 | a window of a newest-first list is newest first |
| Rows.Pages | sign-app/src/services/journalRepo.ts:96 | two consecutive windows of sizes a and b are the window of size a + b |
| Journal.MapRowToDraw | sign-app/src/services/journalRepo.ts:37-46 | a row keeps its id and time, and the daily flag is true for any non-zero integer |
| Journal.RowRoundTrip | sign-app/src/services/journalRepo.ts:58-74 | storing a draw and mapping its row back gives the same draw (null question and note stay null) |
| Journal.AddDraw | sign-app/src/services/journalRepo.ts:58-74 | the insert fails exactly when the id is already a key; otherwise it adds exactly the draw's row and leaves the favourites unchanged |
| Journal.GetDraw | sign-app/src/services/journalRepo.ts:102-106 | null exactly when no row has the id; otherwise the draw read from a row with that id |
| Journal.AddThenGet | sign-app/src/services/journalRepo.ts:102-106 | after `addDraw(d)`, `getDraw(d.id)` returns `d`, and lookups of other ids are unchanged |
| Journal.BlankSearch | sign-app/src/services/journalRepo.ts:80-82 | blank or white-space-only search text lists exactly as no search text |
| Journal.ListedMembers | sign-app/src/services/journalRepo.ts:82-89 | the rows listed are exactly the stored rows whose question or note contains the term (all rows without a term) |
| Journal.ListedSorted | sign-app/src/services/journalRepo.ts:86 | the listed rows are newest first |
| Journal.NoSearchListsAll | sign-app/src/services/journalRepo.ts:93-98 | without a search every stored row is listed, each once |
| Journal.ListDraws | sign-app/src/services/journalRepo.ts:76-100 | at most `limit` draws (default 50); exactly as many as the matching rows after the offset (default 0) allow |
| Journal.ListDrawsSorted | sign-app/src/services/journalRepo.ts:76-100 | the listing is newest first |
| Journal.ListDrawsMatch | sign-app/src/services/journalRepo.ts:82-91 | every listed draw is read from a stored row that matches the search |
| Journal.PagesConcatenate | sign-app/src/services/journalRepo.ts:93-99 | asking for a draws at offset o, then b draws at offset o + a, gives the a + b draws at offset o |
| Journal.ListDrawsTiling | sign-app/src/services/journalRepo.ts:76-100 | `listDraws` with limit a at offset o followed by limit b at offset o + a returns exactly the draws of limit a + b at offset o: paging neither skips nor repeats a draw |
| Journal.ListDrawsComplete | sign-app/src/services/journalRepo.ts:76-100 | from offset 0 with a limit covering every matching row, `listDraws` returns the whole newest-first list of matching rows, each mapped to a draw |
| Journal.UpdateDrawNote | sign-app/src/services/journalRepo.ts:108-111 | only the note field changes: it becomes the new note on the rows with the id and stays as it was on every other row; the favourites are untouched |
| Journal.UpdateThenGet | sign-app/src/services/journalRepo.ts:108-111 | after the update, reading the draw shows the new note; other draws are unchanged; an unknown id changes nothing |
| Rows.FirstWith | sign-app/src/services/journalRepo.ts:115-118 | the first row whose key matches, as `getFirstAsync` returns it for `WHERE drawId = ?` (and `WHERE id = ?` in `getDraw`), and nothing exactly when no row matches |
| Rows.FirstWithAppend | sign-app/src/services/journalRepo.ts:124-127 | appending a row changes the first match only when no row matched before |
| Journal.ToggleFavorite | sign-app/src/services/journalRepo.ts:113-129 | the answer is false exactly when the draw's first favourite row has a non-empty id; then every favourite row of the draw is deleted and the others kept in order; otherwise exactly one row (new id, draw id, now) is appended, and the insert fails only on a taken favourite id; the draws are unchanged |
| Journal.ToggleTwice | sign-app/src/services/journalRepo.ts:113-129 | toggling a draw on and then off restores the original tables |
| Journal.JoinOne | sign-app/src/services/journalRepo.ts:134-135 | one favourite joins with exactly the draws whose id it names |
| Journal.JoinRows | sign-app/src/services/journalRepo.ts:134-135 | the inner join holds exactly the matching (favourite, draw) pairs, and keeps favourite order |
| Journal.FavoritePairs | sign-app/src/services/journalRepo.ts:133-136 | the joined pairs are ordered by favourite time, newest first, and hold exactly the matching pairs |
| Journal.ListFavorites | sign-app/src/services/journalRepo.ts:131-139 | one draw per joined (favourite, draw) pair, in the newest-first order of the favourite rows; the draws listed are exactly those read from a stored row named by some favourite |
| Spread.CountFollowsMode | sign-app/app/spread.tsx:36-44 | mode `'1'` draws 1 card and any other 3; every position has a caption; only mode `'1'` is saved as `spread1` |
| Spread.FindIndex | sign-app/app/spread.tsx:24 | the first position holding the id, or -1 exactly when none does |
| Spread.RemoveAtFacts | sign-app/app/spread.tsx:25-27 | `splice(k, 1)` drops one copy of the card at k and keeps the other cards in order |
| Spread.FoundIsPicked | sign-app/app/spread.tsx:24 | with unique ids, the position found by the picked card's id holds that card |
| Spread.DrawStep | sign-app/app/spread.tsx:19-27 | one loop step keeps selection and pool within the cards drawn from; with unique ids they stay disjoint and together make up all cards |
| Spread.PickUniqueCards | sign-app/app/spread.tsx:13-30 | exactly min(count, pool size) cards (none for count ≤ 0), all from the four packs; the first is the weighted pick from the full pool; with unique ids no card is drawn twice |
| Spread.HandleReveal | sign-app/app/spread.tsx:75-86 | only the tapped entry can change; it becomes shown exactly when it was shown, is the first card, or its left neighbour is shown; a tap outside the array changes nothing |
| Spread.LeadingShown | sign-app/app/spread.tsx:75-86 | when shown cards form a prefix, exactly the first `Leading` cards are shown |
| Spread.RevealStep | sign-app/app/spread.tsx:75-86 | a tap keeps the shown cards a prefix; it changes the state exactly when it hits the first hidden card, and then shows one more |
| Spread.TapsInOrder | sign-app/app/spread.tsx:75-86 | any tap sequence keeps the shown cards a prefix and shows at most one card per tap |
| Spread.LeftToRightTapsShowAll | sign-app/app/spread.tsx:75-86 | tapping positions 0, 1, …, k-1 of a hidden spread shows exactly k cards |
| Spread.Start | sign-app/app/spread.tsx:43-48 | the screen holds the new mode and selection, one hidden flag per card, and is not saved |
| Spread.SaveNeedsEveryTap | sign-app/app/spread.tsx:50-54 | a fresh spread of n cards is not due for saving before n taps |
| Spread.SaveAfterLeftToRightTaps | sign-app/app/spread.tsx:50-54 | tapping a fresh spread's cards left to right makes it due for saving |
| Spread.SaveEffect | sign-app/app/spread.tsx:50-73 | the journal and the saved flag change together, and exactly when every card is shown, nothing is saved yet, there are cards and the insert succeeds |
| Spread.SavedOnce | sign-app/app/spread.tsx:50-73 | after a save that stored the draw, the effect stores nothing more, whatever id and time it is given |
| Spread.SavedDrawReadsBack | sign-app/app/spread.tsx:56-70 | a saved spread reads back from the journal unchanged, its card ids in spread order |
| Spread.PackOfCardId | sign-app/app/spread.tsx:58 | a card id `<pack>-<rest>` yields its pack's name |
| Spread.DistinctMembers | sign-app/app/spread.tsx:57-59 | `Array.from(new Set(xs))` keeps exactly the values of `xs` |
| Spread.DistinctNoRepeats | sign-app/app/spread.tsx:57-59 | `Array.from(new Set(xs))` holds no value twice |
| Spread.DistinctFirstOrder | sign-app/app/spread.tsx:57-59 | `Array.from(new Set(xs))` lists the values in order of first occurrence |
| Spread.PackIdsOf | sign-app/app/spread.tsx:57-59 | the recorded pack ids are exactly the cards' id prefixes, each once, in the order the cards first show them |

## Left out

- I/O and asynchrony: AsyncStorage, SQLite, `await` and promises are not modelled. The energy store is a map from keys to what `JSON.parse` reads from the text stored there. The journal is two in-memory tables. Each operation is one atomic step.
- Concurrency between overlapping async calls (two `consumeEnergy` calls racing, say) is not modelled, since each call is a single step.
- Clock, randomness and id generation are parameters: `new Date()`, `Date.now()`, `Math.random`, and the `fav_…`/`draw_…` ids.
- Floating point: card weights, the threshold and generator outputs are exact reals. IEEE rounding of `rng() * totalWeight` and of the running subtraction is not modelled. The hash and the mixing step of `mulberry32` are modelled bit-exactly on `bv32`.
- Pack contents (the four JSON files) are an abstract `Packs` value, not the shipped data.
- `Date` beyond the calendar: time of day, time zones, and the ±8.64e15 ms range are not modelled. Parsing non-numeric or out-of-range date text gives the invalid date, which prints `NaN-NaN-NaN`.
- `Number()` reads trimmed decimal digits, optionally after `+`, and blank text. Decimals, exponents, hex and `Infinity` are treated as not-a-number. A `-` sign cannot reach it, because the text is split on `-` first.
- Calendar.ParseFormatted and Calendar.IsYesterdayIffPred: stated from year 100 on. Earlier years are covered separately by Calendar.ParseTwoDigitYear and Calendar.IsYesterdayTwoDigitYear.
- Prng.States: the state advance is taken modulo 2^32. In JavaScript `value += 0x6d2b79f5` is a float64 addition without wrap-around, which agrees with this only while the sum stays below 2^53 (about 4.9 million calls from a 32-bit seed). The app draws only call 0 of each generator.
- Prng.HashSeed: text is a sequence of Unicode scalar values, so a lone surrogate, which `charCodeAt` would hash as one unit, cannot occur in a seed.
- JsonArray.SerializeArray: strings are sequences of characters, not UTF-16 units. Lone surrogates and `\u` escapes of surrogate pairs are not modelled.
- JsonArray.ParseArray: stated for text that is not an array at all. A JSON array with non-string elements is not modelled; there `parseArray` returns the parsed array unchanged.
- SQLite `LIKE`: modelled as a case-sensitive substring test. SQLite's ASCII case folding, and `%`/`_` inside the search text acting as wildcards, are not modelled.
- `ORDER BY … DESC` ties: modelled as a stable sort that keeps insertion order. SQLite does not promise any order among equal `createdAt` values.
- Energy.Decode: a stored `remaining` is an integer. A fractional or `NaN` number that passes the `typeof` check is not modelled.
- The `cardText` field that the spread screen passes to `addDraw` is not part of the model. `addDraw` does not write it: its `INSERT` lists only the eight modelled columns. The `cardText` column added by the migration in `db.ts` is likewise not modelled.
- Spread.PickUniqueCards: the loop's `if (!card) break` is not modelled as a branch, because the selector returns a card for every non-empty pool.
- The `as PackId[]` cast on the derived pack ids is unchecked in the source. Pack ids are kept as strings.
- Notifications, streaks, settings, theming and all rendering (JSX, styles, labels' layout) are not modelled.
- `getEnergyState` is `ReadState` with the clock reading as parameter; it has no row of its own.

## Observations

- `resetIfNewDay` refills to 3 whenever the stored date text differs from today's, including a stored date later than today (a clock moved back). Its `isPremium ? MAX_ENERGY : MAX_ENERGY` picks the same value on both branches (Energy.ResetIfNewDay).
- An empty pack list and the explicit list of all four packs give different daily cards in general. The default list is used unsorted, while a given list is sorted by name (DailyPick.EmptyListIsNotAllPacks).
- `toLocalDateISO` does not pad the year. A date before year 100 formats as a short year, which `isYesterday` reads back as 19xx (Calendar.ParseTwoDigitYear).
- `toggleFavorite` tests `existing?.id`, so a favourite row with an empty id counts as absent, and toggling then inserts a second row (Journal.ToggleFavorite).
