# Month calendar with per-day events: a verified model

The widget in `client.js` shows one month as a grid of day cells. The user can step to the
previous or next month, select a day, and attach several free-text events to that day. Events
live in an in-memory map from a date key (`YYYY-MM-DD`) to that day's ordered list of entries.
After every change, that map is written as one JSON object to the browser's local storage.

The project models the logic inside the DOM wiring:

- **Event store** (`event_store.dfy`, module `EventStore`).
  - Loading normalises the parsed blob. `Load` is the `for…in` loop: arrays are kept as they are, a legacy string becomes a one-element list, and every other value is dropped. An absent or unreadable blob gives the empty map.
  - Saving first prunes empty lists (`Prune`, also a loop).
  - Adding, deleting and reloading are stated as functions on the map: `Appended`, `DeleteAt`, `RemoveAt`, `Normalized`, `Pruned`, `Serialized`.
- **JSON values** (`json.dfy`, module `Json`). The value `JSON.parse` returns, and the keys a `for…in` loop visits on it. An object gives its fields. An array or a string gives index keys `"0"`, `"1"`, ….
- **Strings** (`text.dfy`, module `Text`).
  - `String(n)` of an integer.
  - `padStart(2, '0')`.
  - `trim()`, using ECMAScript's full set of whitespace and line-terminator characters.
- **Month grid** (`month_grid.dfy`, module `MonthGrid`).
  - The layout: which day each cell of the seven-column grid shows, and how many rows are emitted.
  - The date key of a cell.
  - The cell's event count and selection highlight.
  - Lemmas: every day appears exactly once, in row-major order, and distinct days have distinct keys.
- **Calendar dates** (`gregorian.dfy`, module `Gregorian`). `new Date(year, month, 1).getDay()` and `new Date(year, month + 1, 0).getDate()` on the proleptic Gregorian calendar. This includes the `Date` constructor's rule that a year argument from 0 to 99 means 1900 to 1999.
- **Widget state** (`calendar.dfy`, module `CalendarApp`). Class `Calendar` holds the module-level state that the handlers reassign: `events`, `currentMonth`, `currentYear`, the selection, and the persisted blob (`storage`, seen through its parsed value).
  - Its methods are the handlers: `AddEvent`, `DeleteEvent`, `SelectDate`, `NextMonth`, `PrevMonth`, and `Save`.
  - `Render` is the nested row/column loop of `renderCalendar`, and `RenderRow` is its inner loop.
  - `Valid()` keeps the month in 0..11. It also requires that reloading the blob would give back every non-empty day of the in-memory map.

Three behaviours of the loading code shape the model:

- Loading keeps any array, whatever its elements are (client.js:30-31). So an entry is any parsed value (`Json`), even though the widget itself only ever adds strings.
- Loading keeps an array that is empty in the blob. So the in-memory map can hold an empty list. Only the saved map is guaranteed to have none.
- A parsed top-level array or string is not treated as missing data (client.js:27-29). The `for…in` loop visits its index keys, so `["a"]` loads as `{"0": ["a"]}`.

## Model

| member | source | states |
|---|---|---|
| `EventStore.Load` | client.js:22-43 | every array entry of the parsed blob is kept unchanged, every string entry `s` becomes `[s]`, nothing else survives; an absent or unparsable blob gives the empty map |
| `EventStore.Prune` | client.js:45-52 | the cleaned map has exactly the keys whose list is non-empty, each with its list unchanged |
| `EventStore.SaveLoadRoundTrip` | client.js:22-53 | loading what saving wrote gives back exactly the non-empty days with their lists in order |
| `EventStore.PrunedIdempotent` | client.js:47-52 | the saved map never contains an empty list, and pruning it again changes nothing |
| `EventStore.LoadLegacyString` | client.js:32-35 | the legacy blob `{"2025-04-05": "Meeting"}` loads as `{"2025-04-05": ["Meeting"]}` |
| `EventStore.RemoveAt` | client.js:200 | `splice(index, 1)` drops exactly the element at `index`, keeps the others in order, one element shorter |
| `EventStore.Appended` | client.js:181-183 | the day's list gains the entry at its end (an absent day counting as empty); every other day is unchanged |
| `EventStore.DeleteAt` | client.js:195-206 | an absent day or an index past the end changes nothing; otherwise exactly that entry goes, the day disappears iff it was its last entry, other days are unchanged |
| `Json.IndexKeyed` | client.js:29 | `for…in` over an array or string visits element `i` under the key `String(i)` and nothing else |
| `Json.EntriesMeaning` | client.js:29-30 | the (key, `parsed[key]`) pairs the loading loop sees: an object's own fields unchanged; for an array or a string exactly the keys `String(0)` .. `String(length - 1)`, each with its element (a string's element is its one-character string); none for null, a boolean or a number |
| `Text.NatToStringDigits` | client.js:86 | `String(n)` of a non-negative integer is a non-empty run of digits without a leading zero |
| `Text.NatToStringInverse` | client.js:86 | the decimal numeral `String(n)` reads back as `n` |
| `Text.IntToStringInjective` | client.js:86 | distinct years have distinct numerals |
| `Text.PadStart2Meaning` | client.js:86 | `padStart(2, '0')` adds only zeros in front, keeps the string as a suffix and reaches length two |
| `Text.PaddedTwoDigits` | client.js:86 | a padded month or day number below 100 is exactly its two decimal digits |
| `Text.TrimStartMeaning` | client.js:174 | removing leading whitespace leaves a suffix of the input, cut after whitespace only, that does not start with whitespace |
| `Text.TrimEndMeaning` | client.js:174 | removing trailing whitespace leaves a prefix of the input, cut before whitespace only, that does not end with whitespace |
| `Text.TrimIsSlice` | client.js:174 | `trim()` keeps a contiguous slice, cuts only whitespace, and the slice neither starts nor ends with whitespace |
| `Text.TrimEmptyIff` | client.js:174-178 | the text trims to empty exactly when it is all whitespace |
| `MonthGrid.RowCountBounds` | client.js:66-119 | the grid has 4 to 6 rows; every emitted row shows a day and no cell below them would |
| `MonthGrid.DayAppearsOnce` | client.js:66-119 | each day 1..daysInMonth appears in exactly one cell, inside the emitted rows |
| `MonthGrid.RowMajorOrder` | client.js:71-109 | day 1 is at row 0, column firstDayOfMonth, and the cell after a day holds the next day |
| `MonthGrid.April2025Layout` | client.js:66-119 | a 30-day month starting on a Tuesday has five rows, two empty cells before day 1 and three after day 30 |
| `MonthGrid.DateKeyFormat` | client.js:86 | the key is the year's numeral, `-`, two month digits (month + 1), `-`, two day digits |
| `MonthGrid.DateKeyInjective` | client.js:86 | distinct (year, month, day) give distinct keys |
| `MonthGrid.DayEventCount` | client.js:90-91 | the count shown is positive iff the day's list exists and is non-empty |
| `MonthGrid.GridCellMeaning` | client.js:75-101 | a cell is empty iff no day falls on it; a day cell carries its key, shows the indicator iff the day has events, and is highlighted iff its key is the selection |
| `Gregorian.FirstDayOfMonth` | client.js:63 | the weekday of the month's first day lies in 0..6 |
| `Gregorian.DaysInMonth` | client.js:64 | a month has 28 to 31 days |
| `Gregorian.YearStartStep` | client.js:63-64 | consecutive years start 365 days apart, 366 after a leap year |
| `Gregorian.MonthsAreContiguous` | client.js:63-64 | each month starts where the previous one ends and December ends with the year |
| `Gregorian.NextMonthWeekday` | client.js:63-64 | the next month starts `DaysInMonth` days later in the week, except where the constructor's two-digit-year rule makes the year jump |
| `Gregorian.April2025` | client.js:63-64 | April 2025 starts on a Tuesday and has 30 days |
| `Gregorian.TwoDigitYearJump` | client.js:63 | year 99 is laid out as 1999, so January of year 100 does not continue from December of year 99 |
| `CalendarApp.Following` | client.js:228-233 | next month stays in 0..11 and is exactly one month later (December rolls to January of year + 1) |
| `CalendarApp.Preceding` | client.js:217-222 | previous month stays in 0..11 and is exactly one month earlier (January rolls to December of year - 1) |
| `CalendarApp.CellKeyIsTarget` | client.js:86-104 | the key a day cell passes to `selectDate` is never empty, so a day clicked in the grid always gets past the `!selectedDateString` guard of `addEvent` (line 172) |
| `CalendarApp.NavigationInverse` | client.js:217-237 | next then previous, or previous then next, returns to the same month |
| `CalendarApp.AddThenReload` | client.js:171-185 | after an add and a save, reloading finds the day's earlier list with the new entry last, and exactly the other non-empty days, each with its list unchanged |
| `CalendarApp.DeleteThenReload` | client.js:194-208 | after a delete and a save, reloading finds no trace of a day whose only event was deleted, and otherwise the remaining entries in order; exactly the other non-empty days come back, each with its list unchanged |
| `CalendarApp.CellAtCursor` | client.js:71-109 | the loop's `date` counter is the day the current cell shows, and it advances only past day cells |
| `CalendarApp.Calendar.constructor` | client.js:12-56 | start-up loads the events from the blob, shows the given month, and selects nothing |
| `CalendarApp.Calendar.Save` | client.js:45-54 | the blob is overwritten with the non-empty days, so reloading it gives the pruned map |
| `CalendarApp.Calendar.Render` | client.js:59-120 | emits `ceil((firstDayOfMonth + daysInMonth) / 7)` rows of seven cells, each the cell the layout puts there, with its key, count and highlight |
| `CalendarApp.Calendar.RenderRow` | client.js:71-111 | one row's seven cells, with the day counter advanced by the number of day cells placed |
| `CalendarApp.Calendar.AddEvent` | client.js:171-185 | with no selection (`NoTarget`: none, or the empty key, which `!selectedDateString` treats as none) or blank text nothing changes and nothing is saved; otherwise the trimmed text is appended to the selected day and the map is saved |
| `CalendarApp.Calendar.DeleteEvent` | client.js:194-208 | the map becomes `DeleteAt` of the old map; it is saved only when something was deleted; the selection is unchanged |
| `CalendarApp.Calendar.SelectDate` | client.js:151-160 | the clicked day's key becomes the selection, and the state stays valid |
| `CalendarApp.Calendar.NextMonth` | client.js:228-234 | the month steps forward with year rollover and the selection is cleared |
| `CalendarApp.Calendar.PrevMonth` | client.js:217-223 | the month steps back with year rollover and the selection is cleared |

## Left out

- DOM construction and updates are not modelled: `createElement`, `innerHTML`, `classList`, `dataset`, event listeners, the month-name header (line 61) and the plural in the count text (line 95). `Render` returns the cells as values instead.
- `displayEventsForDate` (lines 124-149) and `resetEventSection` (lines 239-248) only build or clear DOM. The delete buttons they create pass the indices `0 .. length - 1`, so `DeleteEvent` takes a `nat` index.
- The handlers' calls that re-render the grid and the event list after a change are not modelled as state. `Render` is a query on the state, so a re-render is a call to it.
- `localStorage` and the text of the blob are not modelled. `storage` holds the blob's parsed value, where `None` covers an absent blob, an empty string and a `JSON.parse` failure. `JSON.stringify` followed by `JSON.parse` is taken to give back the same arrays and strings. Numbers are exact reals, not IEEE doubles, so one exception is lost: a literal such as `1e400` inside a stored array parses as `Infinity`, and the next save writes it back as `null`.
- The `console.log`, `console.error` and `alert` calls (lines 38, 176, 186, 196, 201) are side effects only and are left out.
- The start-up month comes from the clock (`new Date()`, lines 13-15), so it is a constructor parameter.
- `Gregorian.FirstDayOfMonth` and `Gregorian.DaysInMonth` do not model the `Date` object's range limit of about 275,000 years. Beyond it, `getDay()` and `getDate()` (lines 63-64) yield `NaN`, and the grid loop (lines 75-118) then fills all 42 cells with days 1 to 42. `Render` instead always emits `RowCount` rows of a legal month shape.
- JavaScript strings are UTF-16, while the model's strings are sequences of Unicode scalar values. A `for…in` over a parsed string with characters outside the Basic Multilingual Plane visits code units, which the model does not distinguish.
- A parsed object key `__proto__` is treated as an ordinary key. In JavaScript, assigning it to `events` would change the object's prototype instead.
