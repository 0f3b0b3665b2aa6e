# Month-view calendar: a verified model

This project models the logic of `app.js`, a browser month-view calendar. The app has:

- a 42-cell month grid with event chips;
- a sidebar mini calendar used for navigation;
- an add/edit dialog;
- an event list kept in local storage.

The host `Date` object is replaced by proleptic Gregorian integer arithmetic. Months are 0-based, as `getMonth` returns them, and weekdays run 0 = Sunday to 6 = Saturday. Local storage becomes a slot holding either nothing, something unreadable, or a list of records. The page's global state becomes a class, `Controller.Calendar`, whose methods are the event handlers.

Modules, following the sections of `app.js`:

- `Dates`: calendar arithmetic (leap years, month lengths, day numbers, weekdays, `setMonth` shifts, the `Date` constructor's reading of the year).
- `DateFormat`: `formatDateStr` and `getTodayStr`. It also has a reading of their output back into a date.
- `JsText`: the string built-ins the handlers use (`trim`, `split` on one character, `Number`).
- `Events`: records, `filter`, `findIndex`, `find` and the spread merge `{ ...old, ...data }`.
- `Store`: the class `EventStore` with `getEvents`, `saveEvents`, `addEvent`, `updateEvent` and `deleteEvent`.
- `Grid`: the `renderCalendar` cell loop and its specification `MonthGrid`.
- `MiniGrid`: the `renderMiniCal` cell loop and its specification `MiniMonth`.
- `Navigation`: the jump made by a mini-calendar day click, both as written and as intended.
- `Controller`: the dialog state, the page invariant and every handler.

The page invariant, `Controller.Calendar.Valid`, has three parts:

- Both anchors are months.
- A hidden dialog edits nothing.
- Each rendered grid equals its specification over the current anchor and storage.

Every handler keeps this invariant.

Facts about the code that the model keeps:

- March 1, 2024 is a Friday, so it is cell 5 of its grid, after five February filler cells (`Grid.March2024`).
- `addEvent` returns nothing.
- `deleteEvent` removes every record holding the id, and writes even when there is none.
- `updateEvent` skips the write when no record holds the id.

For the two defects listed under "## Findings" (the `Date` constructor's reading of years 0..99, and the mini-calendar jump on negative years), each is modelled AS WRITTEN in its own members. The page model (`Grid`, `MiniGrid`, `Controller`) uses the corrected reading, and "## Left out" names the members concerned.

## Model

| member | source | states |
|---|---|---|
| Dates.DaysInMonth | app.js:87-88 | the length of a month, 28 to 31 days, by the Gregorian leap rule (`new Date(y, m + 1, 0).getDate()`) |
| Dates.Weekday | app.js:86 | `getDay()` of a date, a value in 0..6 |
| Dates.FromMonthIndex | app.js:226 | a month count maps back to a valid month with that count |
| Dates.AddMonths | app.js:246 | `setMonth(getMonth() + k)` on a day-1 date gives a valid month exactly k months later, rolling the year over |
| Dates.ConstructorYear | app.js:86-88 | `new Date(y, …)` reads years 0..99 as 1900 + y and leaves every other year as it is |
| Dates.DateConstructorMonth | app.js:237 | `new Date(y, m, 1)` is the valid month `m` months after January of the constructor's year, with month overflow normalised |
| Dates.MonthIndexInjective | app.js:246 | two valid months with the same month count are the same month |
| Dates.NeighboursAreMonthShifts | app.js:106-113 | the grid's branch-wise previous and next month (January and December wrap) equal the navigation's shifts by -1 and +1 |
| Dates.PrevMonth | app.js:106-107 | no contract of its own: the grid's previous month, January wrapping to December of the year before. `NeighboursAreMonthShifts` and `PrevNextInverse` state its properties |
| Dates.NextMonth | app.js:112-113 | no contract of its own: the grid's next month, December wrapping to January of the next year. `NeighboursAreMonthShifts` and `PrevNextInverse` state its properties |
| Dates.AddMonthsCompose | app.js:226 | shifting by a and then b months equals shifting by a + b |
| Dates.PrevNextInverse | app.js:106-113 | going to the previous month undoes going to the next one, and the reverse |
| Dates.LeapYearsStep | app.js:87 | the leap-year count grows by one exactly past a leap year |
| Dates.DaysBeforeMonthStep | app.js:87 | the cumulative month table agrees with the month lengths |
| Dates.NextMonthStart | app.js:86-88 | the first of the next month is `daysInMonth` days after the first of this one, across the year end too |
| Dates.DayNumberInMonth | app.js:95 | consecutive days of a month have consecutive day numbers |
| DateFormat.DigitChar | app.js:76 | a value 0..9 becomes a decimal digit character |
| DateFormat.DigitValue | app.js:76 | a digit character has a value below 10 |
| DateFormat.NatToString | app.js:76 | `String(n)` is a non-empty string of digits, one digit long exactly when n < 10 |
| DateFormat.IntToString | app.js:76 | no contract of its own: `${n}`, a '-' before the digits of a negative number. `IntRoundTrip` states that it reads back to n |
| DateFormat.PadStart2 | app.js:76 | `padStart(2, '0')` leaves strings of 2 or more characters alone and left-fills shorter ones with '0' to length 2 |
| DateFormat.Parse2 | app.js:236 | a two-digit field has a value below 100 |
| DateFormat.ParseDateStr | app.js:236 | a string read as `Y-MM-DD` gives a month in 0..11 and a day in 0..99 |
| DateFormat.FormatDateStr | app.js:75-77 | no contract of its own: `formatDateStr`, the unpadded year, then month + 1 and day padded to two digits. `FormatParseRoundTrip` and `FormatInjective` state that it loses nothing and tells dates apart |
| DateFormat.TodayStr | app.js:70-73 | no contract of its own: `getTodayStr()` as `formatDateStr` of the clock's date. `TodayStrRoundTrip` states that it reads back to that date |
| DateFormat.NatToStringNoLeadingZero | app.js:76 | the decimal form of a positive number has no leading zero |
| DateFormat.NatRoundTrip | app.js:76 | reading back the decimal form of n gives n |
| DateFormat.IntRoundTrip | app.js:76 | the decimal form of any integer, sign included, reads back to that integer |
| DateFormat.Pad2Digits | app.js:76 | the padded form of 0..99 is its tens digit followed by its units digit |
| DateFormat.Pad2RoundTrip | app.js:76 | the padded form of 0..99 is two digits that read back to the number |
| DateFormat.FormatParseRoundTrip | app.js:75-77 | `formatDateStr` output reads back to the same year, month and day, for every year |
| DateFormat.ParseFields | app.js:75-77 | well-formed year, month and day fields joined by '-' read back field by field |
| DateFormat.TodayStrRoundTrip | app.js:70-73 | `getTodayStr()` of today's date reads back to that date, so it is the same string `formatDateStr` gives for today |
| DateFormat.FormatInjective | app.js:75-77 | two date strings are equal exactly when the dates are equal, so string comparison is date comparison |
| JsText.TrimStart | app.js:336 | dropping leading white space leaves a suffix, removes only white space, and leaves no white space in front |
| JsText.TrimEnd | app.js:336 | dropping trailing white space leaves a prefix, removes only white space, and leaves none at the end |
| JsText.Trim | app.js:336 | no contract of its own: `trim()` as the trailing trim of the leading trim. `TrimSlice`, `TrimEmptyIff`, `TrimIdempotent` and `TrimOfUnpadded` state its properties |
| JsText.TrimSlice | app.js:336-339 | `trim()` keeps one contiguous slice, removes only white space, and leaves no white space at either end |
| JsText.TrimEmptyIff | app.js:336-342 | a string trims to empty exactly when it is all white space |
| JsText.TrimStartOfTrimmed | app.js:336 | a string that does not start with white space is left alone by the leading trim |
| JsText.TrimIdempotent | app.js:336 | trimming twice is the same as trimming once |
| JsText.TrimOfUnpadded | app.js:336 | a string with no white space at either end is left unchanged by `trim()` |
| JsText.Split | app.js:236 | `split(sep)` gives at least one part, and no part contains the separator |
| JsText.SplitJoin | app.js:236 | joining the parts with the separator rebuilds the string |
| JsText.SplitLeadingField | app.js:236 | a leading field without the separator splits off as the first part |
| JsText.SplitNoSeparator | app.js:236 | a string without the separator splits into itself alone |
| JsText.Number | app.js:236 | `Number` of a string is never negative for the strings modelled |
| JsText.NumberOfDigits | app.js:236 | `Number` of a non-empty run of decimal digits (leading zeros allowed) is its decimal value |
| JsText.NumberOfDecimal | app.js:236 | `Number` of a decimal numeral is its value |
| Events.Filter | app.js:65 | `filter` keeps exactly the elements that pass the test, and never grows the list |
| Events.FindIndex | app.js:57 | `findIndex` is -1 exactly when the id is absent; otherwise it is the first position holding the id |
| Events.FindAgreesWithFindIndex | app.js:320 | `find` returns the element at the position `findIndex` reports, or nothing when it is -1 |
| Events.Find | app.js:320 | no contract of its own: `find`, the first record holding the id. `FindAgreesWithFindIndex` ties it to `FindIndex`, and `AddThenFind`, `UpdateThenFind` and `DeleteThenFind` state what it finds after each store operation |
| Events.NewEvent | app.js:51 | no contract of its own: the record `{ id, ...data }`. `AddThenFind` states that the fresh id finds it with all submitted fields |
| Events.Merge | app.js:59 | no contract of its own: the spread `{ ...events[idx], ...data }`, keeping the record's id. `MergeFull` and `MergeTitleOnly` state its effect |
| Events.Updated | app.js:57-59 | no contract of its own: the list `updateEvent` writes. `UpdatedShape` and `UpdateThenFind` state its shape and lookups |
| Events.WithoutId | app.js:65 | no contract of its own: `events.filter(e => e.id !== id)`. `DeleteShape`, `DeleteThenFind` and `DeleteUniqueShrinksByOne` state its contents |
| Events.OnDate | app.js:146 | no contract of its own: `events.filter(e => e.date === dateStr)`. `Filter`'s contract, `Grid.EventPlacement` and `Grid.CellEventsInStoreOrder` state its contents and order |
| Events.FilterConcat | app.js:146 | filtering distributes over concatenation, so kept elements keep their order |
| Events.FilterKeepsAll | app.js:65 | a filter that keeps every element returns the list unchanged |
| Events.MergeFull | app.js:356-359 | merging the four submitted fields onto a record gives those fields under the record's own id |
| Events.MergeTitleOnly | app.js:59 | merging `{ title }` alone changes only the title |
| Events.AddThenFind | app.js:49-53 | after appending a record under a fresh id, looking up that id finds the record with all submitted fields. Every other lookup is unchanged, and unique ids stay unique |
| Events.UpdatedShape | app.js:55-62 | an update keeps the length and every record except the first holding the id, which becomes the merge. With no such record it changes nothing |
| Events.UpdateThenFind | app.js:55-62 | after an update, the updated id finds the merged record, every other id finds what it found before, and a missing id stays missing |
| Events.FindIndexSameIds | app.js:57 | lists with the same id at every position give the same `findIndex` |
| Events.DeleteShape | app.js:64-67 | a delete keeps exactly the records not holding the id. With the id absent the list is unchanged |
| Events.DeleteThenFind | app.js:64-67 | after a delete, the id finds nothing and every other id finds what it found before |
| Events.DeleteUniqueShrinksByOne | app.js:64-67 | with unique ids, deleting a present id removes exactly one record |
| Store.EventStore.GetEvents | app.js:32-39 | reading gives the stored list, or the empty list when storage is absent or unreadable |
| Store.EventStore.SaveEvents | app.js:41-47 | a successful write stores the list, and a failed write leaves storage as it was |
| Store.EventStore.AddEvent | app.js:49-53 | with a fresh id, storage becomes the old list followed by exactly one new record holding the id and all submitted fields. If the write fails, storage is unchanged |
| Store.EventStore.UpdateEvent | app.js:55-62 | storage becomes the list with the first record holding the id merged with the data. An unknown id writes nothing, and a failed write changes nothing |
| Store.EventStore.DeleteEvent | app.js:64-67 | storage becomes the old list without the records holding the id, and is written even when the id is absent |
| Grid.MonthLayout | app.js:86-88 | the weekday of the 1st, the length of the month and the length of the previous month, each within its plausible range |
| Grid.JsLayout | app.js:86-88 | the same three values computed for the year the `Date` constructor actually uses |
| Grid.JsLayoutYearZeroFebruary | app.js:86-88 | as written, February of year 0 (a leap year) is laid out with 28 days instead of 29 |
| Grid.JsLayoutAgrees | app.js:86-88 | outside years 0..99 the source's layout is the Gregorian one |
| Grid.CellDate | app.js:95-117 | no contract of its own: the day cell i stands for, by the three branches on `dayNum`. `CellResolution`, `CellDayNumber` and `GridTilesSixWeeks` state its properties |
| Grid.MainCell | app.js:95-155 | no contract of its own: the specification of one main cell. `BuildCell` builds it, and `TodayFlag`, `EventPlacement` and `CellChips` state its parts |
| Grid.ChipText | app.js:150 | a chip reads `time + " " + title` when the time is set, and the title alone otherwise |
| Grid.Chips | app.js:147-153 | one chip per event of the day |
| Grid.CellChips | app.js:147-150 | chip k of a cell is the label of the cell's event k, one chip per event |
| Grid.MonthGrid | app.js:94 | the grid specification always has exactly 42 cells |
| Grid.BuildMonthGrid | app.js:80-157 | the `renderCalendar` loop builds 42 cells, each equal to the specification cell at its position |
| Grid.BuildCell | app.js:95-150 | one loop iteration, branch by branch (leading, trailing, in-month), gives the specification cell |
| Grid.CellResolution | app.js:103-119 | leading cells show `prevMonthDays + dayNum` in 1..prevMonthDays and resolve to the previous month. In-month cells show their own day. Trailing cells show `dayNum - daysInMonth` (at least 1) and resolve to the next month |
| Grid.InMonthCount | app.js:94-119 | exactly `daysInMonth` cells belong to the displayed month |
| Grid.CountInsideRun | app.js:94-119 | a grid whose in-month cells are exactly positions lo..hi-1 has hi - lo in-month cells |
| Events.FilterDropsAll | app.js:146 | a filter that keeps nothing returns the empty list |
| Grid.CellDayNumber | app.js:95-119 | cell i resolves to the valid calendar day that is `i - firstDay` days after the 1st |
| Grid.WeekdayShift | app.js:86-95 | the weekday advances with the cell index |
| Grid.GridTilesSixWeeks | app.js:86-119 | the grid is 42 consecutive valid days starting `firstDay` days before the 1st, and each cell's column is its weekday |
| Grid.CellDatesDistinct | app.js:103-119 | different cells stand for different days |
| Grid.DateStringsDistinct | app.js:103-119 | the 42 resolved date strings are pairwise distinct |
| Grid.TodayFlag | app.js:98-118 | a cell is marked today exactly when it is in the month and its day is today. Filler cells are never marked |
| Grid.EventPlacement | app.js:146 | an event is listed in a cell exactly when its date is that cell's string, and so in at most one cell |
| Grid.CellEventsInStoreOrder | app.js:146 | the events of a cell keep their storage order |
| Grid.March2024 | app.js:86-119 | March 2024 starts on a Friday with 31 days. Cells 0..4 are February 25..29, cell 5 is March 1, cell 41 is April 6 |
| Grid.Format20240305 | app.js:75-77 | March 5, 2024 is formatted as "2024-03-05" |
| Grid.StandupScenario | app.js:146-151 | a 09:00 "Standup" event on 2024-03-05 appears alone in cell 9 with the chip "09:00 Standup" |
| MiniGrid.MiniMonth | app.js:193 | the mini-calendar specification always has 42 cells |
| MiniGrid.MiniCellAt | app.js:194-215 | no contract of its own: the specification of one mini cell. `BuildMiniCell` builds it, and `MiniMatchesMain` and `MiniTodayFlag` state its parts |
| MiniGrid.BuildMiniGrid | app.js:161-216 | `renderMiniCal` builds the mini cells of the anchor month, equal to the specification |
| MiniGrid.FillMiniGrid | app.js:193-216 | the mini loop builds 42 cells, each equal to the specification cell at its position |
| MiniGrid.BuildMiniCell | app.js:194-213 | one mini iteration: filler days show their number only, with an empty `data-date`. The month's own days get their date string, take clicks and are marked when they are today |
| MiniGrid.MiniMatchesMain | app.js:199-213 | a mini cell agrees with the main cell at the same position: same number and today mark, clickable exactly when the main cell is not outside, and then with the same date |
| MiniGrid.MiniSelectableCount | app.js:205-212 | exactly positions firstDay..firstDay+daysInMonth-1 are clickable, showing 1..daysInMonth |
| MiniGrid.MiniSelectableJumps | app.js:209-237 | a clickable mini day jumps to the month it shows under the intended reading. Under the source's reading it does so from year 100 on |
| MiniGrid.MiniTodayFlag | app.js:208-209 | a mini cell is marked today exactly when it is the month's own day equal to today |
| Navigation.JumpTarget | app.js:236-237 | the intended jump target, when there is one, is a valid month |
| Navigation.JumpTargetOfFormatted | app.js:236-237 | a formatted date string jumps to that date's month, for every year |
| Navigation.JumpAsWritten | app.js:236-237 | no contract of its own: the source's jump, `split('-')`, `Number` on the first two fields, then `new Date(y, m - 1, 1)`. `JumpAsWrittenAgrees`, `JumpAsWrittenSmallYear` and `JumpAsWrittenNegativeYear` state where it lands |
| Navigation.JumpOfNumbers | app.js:236-237 | no contract of its own: `new Date(y, m - 1, 1)` on the two numbers, an Invalid Date when either is NaN. `JumpAsWrittenOf` states its value on read fields |
| Navigation.JumpAsWrittenOf | app.js:236-237 | once the first two split fields read as numbers y and m, the source jumps to `new Date(y, m - 1, 1)` |
| Navigation.JumpAsWrittenAgrees | app.js:236-237 | from year 100 on, the source's `split('-').map(Number)` jump reaches the clicked date's month |
| Navigation.SplitThreeFields | app.js:236 | a `Y-MM-DD` string whose fields contain no '-' splits into exactly those three fields |
| Navigation.JumpAsWrittenNegativeYear | app.js:236-237 | as written, year -5's "-5-03-01" splits with an empty first field and jumps to May 1900. The intended reading gives March of year -5 |
| Navigation.JumpAsWrittenTwoDigitYear | app.js:236-237 | as written (an instance of `JumpAsWrittenSmallYear`), year 50's "50-03-01" jumps to March 1950. The intended reading gives March of year 50 |
| Navigation.JumpAsWrittenSmallYear | app.js:236-237 | as written, for every year y in 0..99 a click on a date of that year jumps to the same month of year 1900 + y |
| Navigation.SplitFormatted | app.js:236 | a formatted date with a non-negative year splits into its year, month and day fields |
| Navigation.ConstructorMonthOf | app.js:237 | `new Date(y, m, 1)` for y in 0..99 lands in year 1900 + y |
| Controller.Opened | app.js:274-312 | `openModal` shows the dialog with no errors. The editing id, the heading and the Delete button follow the mode, and all four inputs (title, date, time, description) take the data's values or become empty |
| Controller.Closed | app.js:297-303 | `closeModal` hides the dialog, clears the editing id, resets the form and clears the errors |
| Controller.Typed | app.js:392-401 | typing changes only that input, and the title and date inputs also clear their own error text |
| Controller.Submitted | app.js:336-356 | the submitted record has the trimmed title and description, and the date and time as entered |
| Controller.Rejected | app.js:341-354 | a failed submit shows "Title is required" exactly when the trimmed title is empty and "Date is required" exactly when the date is empty, and changes nothing else |
| Controller.Acceptable | app.js:341-354 | no contract of its own: the validation, a non-empty trimmed title and a non-empty date. `RejectedShowsError`, `SubmittedTitleTrimmed` and `Calendar.Submit` state what follows from it |
| Controller.Editing | app.js:358-371 | no contract of its own: `if (editingEventId)`, an id that is set and not the empty string. `Calendar.Submit` and `Calendar.Delete` branch on it |
| Controller.RejectedShowsError | app.js:341-354 | a rejected form always shows at least one error, and an all-white-space title is always rejected |
| Controller.SubmittedTitleTrimmed | app.js:336-356 | an accepted title is non-empty, has no white space at either end, and is unchanged by trimming |
| Controller.Calendar.constructor | app.js:2-6 | page load (with the first renders of lines 404-405) puts both anchors on today's month, hides the dialog, takes storage as found and draws both grids |
| Controller.Calendar.Valid | app.js:2-6 | no contract of its own: the page invariant, both anchors months, a hidden dialog editing nothing, and each grid equal to its specification. Every handler's contract ensures it |
| Controller.Calendar.RenderCalendar | app.js:80-157 | the main grid becomes the grid of the current month over storage and today. Nothing else changes |
| Controller.Calendar.RenderMiniCal | app.js:161-219 | the mini grid becomes the mini calendar of the mini anchor. Nothing else changes |
| Controller.Calendar.PrevMonth | app.js:245-250 | the main anchor moves back one month (January goes to December of the year before), the mini anchor follows, and both grids are redrawn |
| Controller.Calendar.NextMonth | app.js:252-257 | the main anchor moves forward one month (December goes to January of the next year), the mini anchor follows, and both grids are redrawn |
| Controller.Calendar.GoToday | app.js:259-265 | both anchors move to today's month, and both grids are redrawn |
| Controller.Calendar.MiniStep | app.js:222-229 | a mini arrow moves only the mini anchor, by its direction |
| Controller.Calendar.ClickMiniDay | app.js:231-241 | a clickable mini day moves the main anchor to the mini calendar's month and redraws it. A filler day changes nothing |
| Controller.Calendar.OpenModal | app.js:274-295 | the dialog becomes what `openModal` shows. The anchors and grids are unchanged |
| Controller.Calendar.CloseModal | app.js:297-303 | the dialog becomes what `closeModal` leaves, for the Cancel and close buttons too (lines 378-379). The anchors and grids are unchanged |
| Controller.Calendar.ClickCreate | app.js:268-271 | Create opens the add form on today's date, with no editing id, no Delete button and no errors. The mini calendar is unchanged |
| Controller.Calendar.ClickDay | app.js:325-328 | a click on a day of the month opens the dialog as `openModal('add', { date })` shows it: "New Event", no editing id, no Delete button, no errors and the form on that cell's date. A filler cell does nothing. The mini calendar is unchanged |
| Controller.Calendar.ChipEventStored | app.js:146-151 | every chip on the main grid stands for a record in storage |
| Controller.Calendar.ClickChip | app.js:316-322 | a chip click always finds its record, and the edit form opens with that id and the record's fields |
| Controller.Calendar.OnInput | app.js:392-401 | an input event changes the dialog as `Typed` states |
| Controller.Calendar.Submit | app.js:332-366 | an invalid form only sets the error texts, with storage, the grid and the editing id untouched. A valid form updates the edited record, or appends a new one under the fresh id, then closes the dialog and redraws |
| Controller.Calendar.Delete | app.js:368-375 | only while editing: removes every record with the id, closes and redraws. Otherwise nothing changes |
| Controller.Calendar.PressEscape | app.js:385-389 | Escape closes the dialog only when it is showing |
| Controller.Calendar.ClickOverlay | app.js:381-383 | a click closes the dialog only when it lands on the backdrop itself |

## Left out

- DOM building, class strings, `innerHTML`, `focus()` and listener registration are left out because they are presentation. Error highlighting is kept only as the two error texts.
- The month titles from `toLocaleDateString` are left out because they are locale formatting done by the host.
- `localStorage` and the JSON text are left out. Storage is a slot holding nothing, unreadable content, or a list. A write's success is the `writeOk` parameter.
- Changes made to storage by other tabs are not modelled.
- Stored records are assumed to have the record shape. Malformed JSON that still parses (for example an array of numbers) is not modelled.
- `crypto.randomUUID()` is the `freshId` parameter. The caller promises it is not already in storage.
- The host clock is the `today` parameter of each handler that reads it, and `Calendar.constructor` requires it to be a valid date.
- The `Date` object's range limit (about ±273,790 years) is not modelled. Years are unbounded.
- The raw value of the native `type="date"` input is kept as the string the user supplies. The browser's sanitising of it is host behaviour.
- `FormatDateStr` does not pad the year, exactly as the source, so years below 1000 give strings that are not ISO 8601 dates.
- JsText.Number: models `Number` only as the empty string giving 0 and a trimmed run of decimal digits giving its value, with everything else NaN. Signs, decimals, exponents and hex forms are left out because the handlers only pass it fields of split date strings.
- Controller.Calendar.ClickChip: assumes the rendered grid matches storage (the page invariant). The source's silent path when `find` comes back empty is not reachable under that invariant.
- The layout's `new Date(y, m, 1)` is built and read in local time, so `getDay()` is the weekday of that calendar day and no time zone enters the model.
- Grid.BuildMonthGrid: lays out a month by the Gregorian rules of the displayed year (`MonthLayout`). For years 0..99 it does not follow the source, which lays them out as 1900 + y (see "## Findings"; `Grid.JsLayout` models the source's layout).
- MiniGrid.BuildMiniGrid: uses the corrected layout, as `Grid.BuildMonthGrid` does, and so differs from the source for years 0..99.
- Controller.Calendar.RenderCalendar: draws the grid with the corrected layout. For years 0..99 the source's grid is that of year 1900 + y.
- Controller.Calendar.RenderMiniCal: draws the mini calendar with the corrected layout, with the same difference for years 0..99.
- Controller.Calendar.ClickMiniDay: jumps by the corrected reading (`Navigation.JumpTarget`). For years 0..99 and for negative years the source's jump goes elsewhere (`Navigation.JumpAsWritten`, see "## Findings"). From year 100 on the two agree (`Navigation.JumpAsWrittenAgrees`).

## Findings

| source | as written | input that shows it | evidently intended | confidence | as-written member | corrected member |
|---|---|---|---|---|---|---|
| app.js:86-88 | `new Date(year, …)` (here, and again at lines 164-166 and 237) reads a year 0..99 as 1900..1999, so those years get a twentieth-century layout and mini-calendar clicks jump into the 1900s | year 0 February gets 28 days instead of 29; clicking "50-03-01" goes to March 1950 | the layout and the jump use the displayed year itself | not executed | Grid.JsLayoutYearZeroFebruary, Navigation.JumpAsWrittenSmallYear, Navigation.JumpAsWrittenTwoDigitYear | Grid.GridTilesSixWeeks, Navigation.JumpTargetOfFormatted |
| app.js:236-237 | `dateStr.split('-')` on a date with a negative year yields an empty first field, so y = 0 and m is the year's digits | "-5-03-01" (year -5, March) jumps to May 1900 | the jump goes to the month of the clicked date | not executed | Navigation.JumpAsWrittenNegativeYear | Navigation.JumpTargetOfFormatted |
