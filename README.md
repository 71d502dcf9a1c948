# Calendar diary: a verified model

This is a model of the logic of a browser diary page, written in Dafny. The page shows a month calendar. The user picks a day, writes text for it and saves it. Entries live in one persisted record that maps a date key `YYYY-MM-DD` to the entry's text. The user can also list all entries newest first, search them, copy them out as plain text, delete one, or clear them all.

All of the logic sits in one file, `g5.js`. The model has one Dafny module per concern:

- `Results` (results.dfy): `Option` and `Result`.
- `Text` (text.dfy): JavaScript's `trim`, `includes`, and the case-insensitive global match the search counts with. It also holds the string order that `sort()` uses and proves that this order is a strict total order.
- `Dates` (dates.dfy): Gregorian month lengths, Sakamoto's weekday formula, and stepping one month forward or back. The month lengths are checked against the standard cumulative month table (`Dates.DaysBeforeMonthTable`). A day count (days since 1 January of year 1), built from the month lengths and a closed-form year length, shows that the source's day-0 trick gives each month's length (`Dates.DayZeroTrick`); for January to November this holds by construction, and only December goes through the year length (`Dates.YearStep`). The weekday formula, which carries its own month table, is proved equal to that day count plus one, mod 7, for every year (`Dates.WeekdayFollowsDayNumber`).
- `DateKeys` (keys.dfy): `formatDate` and a parser for its keys. Formatting and parsing are proved to be a one-to-one correspondence between real calendar days and well-formed keys. For four-digit years, key order is proved to be calendar order.
- `Store` (store.dfy): the entry record. Its changes are pure functions (`Upsert`, `Remove`) with lemmas. The class `EntryStore` holds the persisted slot, and its methods read the record, change it and write it back.
- `Calendar` (calendar.dfy): the class `CalendarState`, which holds `currentMonth`, `currentYear` and `selectedDate` and has the navigation handlers. It also holds the month-grid loops of `renderCalendar`.
- `Listing` (listing.dfy): `displayDiariesList` and the search handler. This covers the descending key sort, the filter, the match count, the reported total and the export text.
- `App` (app.dfy): the button handlers, which connect the calendar state and the store.

Dialogs and the clock become parameters. A `confirm` is a `confirmed: bool`, and `new Date()` is a `today: Date` argument. The persisted record is a `Slot`. It has three cases: absent, a stored `map<string, string>`, or a payload that does not parse.

## Behaviour kept as the code has it

In each of these cases the code does something a reader might not expect, and the model does what the code does:

- A malformed record is not read as empty. `getDiaries` (g5.js:44-47) throws when the stored JSON is malformed; it does not read it as empty. Every handler that reads the record therefore fails and writes nothing (`StoreError`). Clear-all does not read the record, so it still works on a malformed one.
- The search is not case-insensitive throughout. The filter uses case-sensitive `includes` (g5.js:230). The match count uses a case-insensitive global pattern (g5.js:188), but it runs only over the entries the filter kept (g5.js:236 passes them to g5.js:185-191). An entry that holds the term only in another case is therefore neither listed nor counted (`Listing.OtherCaseOnlyIsNotFound`). Inside a listed entry, occurrences in another case are counted as well (`Listing.ListedEntryCountsOtherCase`). Because every listed entry contains the term exactly, the match count is always at least the number of listed entries.
- A field of white space is not refused by the save button. The button refuses only a completely empty field (g5.js:157). A field of white space alone reaches `saveDiaryEntry`, which deletes the day's entry.
- Years 0 to 99 are not shown in the grid as themselves. `new Date(y, m, d)` reads years 0 to 99 as 1900 to 1999. The grid, the day cells and a selected day use that year (`Dates.JsYear`). The month label prints `currentYear` unchanged.
- The listing is not in calendar order for every year. Keys are sorted as strings. Within one year width and for non-negative years, key order is calendar order; the model proves this for years 1000 to 9999 (`DateKeys.KeyOrderIsCalendarOrder`). Across year widths the two orders differ (`DateKeys.KeyOrderAcrossYearWidths`), and among negative years of one width key order is reversed: the key of year -5 sorts before that of year -6 (`DateKeys.NegativeYearOrderReversed`).

## Model

| member | source | states |
|---|---|---|
| `Text.Trim` | g5.js:51 | the result is empty exactly when every character is white space; otherwise it neither starts nor ends with white space |
| `Text.TrimIsSurrounded` | g5.js:51 | the result is a slice of the input that has only white space before it and after it |
| `Text.TrimIdempotent` | g5.js:54 | trimming an already trimmed text changes nothing, so a stored entry is kept exactly as saved |
| `Text.Contains` | g5.js:230 | `includes`: the empty term is contained in every text, and a contained term is no longer than the text |
| `Text.FoldChar` | g5.js:188 | the folded character is never an upper-case ASCII letter, and it differs from the input only for an upper-case letter, which it maps to its lower-case form |
| `Text.Fold` | g5.js:188 | the folded text has the input's length, and each character is folded on its own |
| `Text.FoldIdempotent` | g5.js:188 | folding a folded text changes nothing |
| `Text.FoldOfUnfoldable` | g5.js:188 | a text without upper-case letters is its own folded form |
| `Text.FoldKeepsContains` | g5.js:229-230 | a case-sensitive occurrence of the term is also a case-insensitive one |
| `Text.Occurrences` | g5.js:188-191 | the non-overlapping, left-to-right match count; the matches never cover more characters than the text has |
| `Text.OccurrencesDoNotOverlap` | g5.js:189-191 | "aaa" holds one match of "aa": the scan resumes after a match, so matches never overlap |
| `Text.ContainsHasOccurrence` | g5.js:189-191 | a text that contains the term yields at least one match |
| `Text.NoOccurrenceWithoutContains` | g5.js:189-190 | a text without the term yields no match, so nothing is added to the count |
| `Text.Below` | g5.js:185 | the order of `sort()` without a comparator, lexicographic on characters: nothing sorts before the empty string, and a proper prefix sorts before the longer string |
| `Text.BelowAtFirstDifference` | g5.js:185 | two strings that agree up to an index and differ there are ordered by their characters at that index |
| `Text.BelowIrreflexive` | g5.js:185 | no key sorts before itself |
| `Text.BelowTransitive` | g5.js:185 | the sort order is transitive |
| `Text.BelowTotal` | g5.js:185 | of two different keys, one sorts before the other |
| `Text.BelowAsymmetric` | g5.js:185 | two keys never sort before each other |
| `Dates.IsLeapYear` | g5.js:100 | the Gregorian leap rule `new Date` follows: a year not divisible by 4 is common, one divisible by 4 but not by 100 is leap, and a century year is leap exactly when divisible by 400 |
| `Dates.DaysInMonth` | g5.js:100 | a month has 28 to 31 days; it has 29 exactly for February of a leap year and 28 exactly for February of a common year |
| `Dates.JsYear` | g5.js:99-100 | the year `new Date(y, m, d)` uses: never in 0..99, and equal to the given year except that 0..99 become 1900..1999 |
| `Dates.MonthAfter` | g5.js:147-152 | the next month is in 0..11 and one month later on the month line, so December goes to January of the next year |
| `Dates.MonthBefore` | g5.js:138-143 | the previous month is in 0..11 and one month earlier on the month line, so January goes to December of the previous year |
| `Dates.LeapCountStep` | g5.js:100-101 | the count of leap years up to a year grows by one exactly when that year is a leap year |
| `Dates.YearStep` | g5.js:100 | a year adds 366 days to the day count when it is a leap year and 365 days otherwise |
| `Dates.DaysBeforeMonthTable` | g5.js:100 | the days before each month are the common-year totals, plus one after February in a leap year |
| `Dates.DayZeroTrick` | g5.js:100 | day 0 of the next month is the last day of this month, so `new Date(y, m + 1, 0).getDate()` is the month's length |
| `Dates.Weekday` | g5.js:101 | the weekday is in 0..6 |
| `Dates.WeekdayFollowsDayNumber` | g5.js:101 | Sakamoto's formula equals the day count plus one, mod 7 (1 January of year 1 was a Monday), for every year |
| `Dates.FirstWeekday` | g5.js:99-101 | the number of leading empty cells is in 0..6 |
| `Dates.NextMonthStartsAfterThisOne` | g5.js:99-101 | the 1st of the next month falls the month's length in days later in the week |
| `DateKeys.NatToDecimal` | g5.js:70-71 | the numeral has no superfluous leading zero; it has one digit exactly below 10 and two digits exactly from 10 to 99 |
| `DateKeys.IntToDecimal` | g5.js:69 | `${year}`: the numeral starts with a minus sign exactly for a negative year, and the digits are otherwise canonical, without a superfluous leading zero |
| `DateKeys.PadStart2` | g5.js:70-71 | `padStart(2, '0')`: the result is at least two characters long, ends with the input, and is filled before it with zeros only |
| `DateKeys.PaddedNumeral` | g5.js:70-71 | padding the numeral of a number below 100 gives exactly its two-digit form |
| `DateKeys.FormatDate` | g5.js:68-73 | the key is the decimal year, a hyphen, the 1-based month in exactly two digits, a hyphen, and the day in exactly two digits |
| `DateKeys.ParseFormatDate` | g5.js:68-73 | every valid date's key parses back to that date |
| `DateKeys.FormatParsedKey` | g5.js:68-73 | every string that parses is the key of the date it parses to |
| `DateKeys.FormatDateInjective` | g5.js:68-73 | two valid dates with the same key are the same date |
| `DateKeys.BelowConcat` | g5.js:185 | strings of equal length compare by their first difference |
| `DateKeys.BelowIsNumericOrder` | g5.js:185 | on digit strings of equal length, the sort order is numeric order |
| `DateKeys.TwoDigitsOrder` | g5.js:70-71 | two-digit fields sort as their numbers do, and are equal exactly when the numbers are |
| `DateKeys.FourDigitYearOrder` | g5.js:69 | four-digit years sort as their numbers do, and are equal exactly when the numbers are |
| `DateKeys.KeyOrderIsCalendarOrder` | g5.js:185 | for years 1000 to 9999, one key sorts before another exactly when its day is earlier |
| `DateKeys.KeyOrderAcrossYearWidths` | g5.js:185 | 31 December 999 is earlier than 1 January 1000, yet its key sorts higher |
| `DateKeys.NegativeYearOrderReversed` | g5.js:185 | 1 January of year -6 is earlier than 1 January of year -5, yet its key sorts higher |
| `Store.EntryText` | g5.js:77-78 | the stored text or the empty string: the editor text is empty exactly when the day has no entry, and otherwise it is the stored text |
| `Store.HasEntry` | g5.js:124 | `if (diaries[dateStr])`, the truthiness of the looked-up text: the day is marked exactly when its key is present and its text is not the empty string |
| `Store.HasEntryOnCleanRecord` | g5.js:124 | on a record the write paths keep clean, the `has-entry` test (the stored text is truthy) holds exactly when the key is present |
| `Store.Upsert` | g5.js:49-56 | after a save the date is present exactly when the content is not blank, and then it holds the trimmed content; every other key and its text are unchanged |
| `Store.Remove` | g5.js:60-63 | after a delete the date is absent, every other key and its text are unchanged, and the record shrinks by one exactly when the date was present |
| `Store.UpsertKeepsClean` | g5.js:51-54 | a save keeps the record free of blank or untrimmed texts |
| `Store.RemoveKeepsClean` | g5.js:62 | a delete keeps the record free of blank or untrimmed texts |
| `Store.SaveThenRead` | g5.js:54 | after saving non-blank content, the editor shows the trimmed content and the day is marked as having an entry |
| `Store.BlankSaveDeletes` | g5.js:51-52 | saving white space only is the same as deleting, and the editor then shows the empty string |
| `Store.RemoveIdempotent` | g5.js:62 | deleting an absent date leaves the record as it was, and deleting twice is the same as deleting once |
| `Store.RemoveThenRead` | g5.js:60-65 | after a delete, the editor shows the empty string and the day is not marked |
| `Store.EntryStore.Load` | g5.js:44-47 | reading throws exactly when the payload is malformed; an absent record reads as the empty diary and a stored one as its map |
| `Store.EntryStore.Save` | g5.js:49-56 | a malformed record aborts with nothing written; otherwise the record written back is the loaded record with the save applied |
| `Store.EntryStore.Delete` | g5.js:60-63 | a malformed record aborts with nothing written; otherwise the record written back is the loaded record without the date |
| `Store.EntryStore.ClearAll` | g5.js:241 | the record is removed, and reading it afterwards gives the empty diary |
| `Store.EntryStore.Entry` | g5.js:77-78 | a malformed record throws; otherwise the text is non-empty exactly when the day has an entry, and then it is the stored text |
| `Calendar.RenderGrid` | g5.js:107-126 | the grid holds exactly as many empty cells as the weekday of the 1st, then one cell per day numbered 1 to the month's length in order; each day cell is keyed by its formatted date, marked `today` exactly when the key is today's, and marked `has-entry` exactly when the store holds non-empty text under it |
| `Calendar.DayCell` | g5.js:113-125 | the cell of day `i` is numbered `i`, it is marked `today` exactly when its key is today's, and `has-entry` exactly when the store holds non-empty text under its key |
| `Calendar.DayCellKeyNamesDay` | g5.js:117-118 | the key a day cell carries parses back to that very day |
| `Calendar.GridGrows` | g5.js:113-125 | appending the cell of the next day to a grid prefix gives the grid prefix one day longer |
| `Calendar.DayKeysDistinct` | g5.js:113-118 | different days of the grid carry different keys |
| `Calendar.TodayMarkerIsToday` | g5.js:102-122 | a day cell is marked `today` exactly when its day is today |
| `Calendar.CalendarState.constructor` | g5.js:20-22 | at start-up, today's month and year are displayed and today is selected |
| `Calendar.CalendarState.PreviousMonth` | g5.js:138-143 | the displayed month becomes the month before, wrapping into the previous year, and the month stays in 0..11; the selection is unchanged |
| `Calendar.CalendarState.NextMonth` | g5.js:147-152 | the displayed month becomes the month after, wrapping into the next year, and the month stays in 0..11; the selection is unchanged |
| `Calendar.CalendarState.SelectDay` | g5.js:128-129 | the clicked day of the displayed month becomes the selected date; the displayed month is unchanged |
| `Calendar.CalendarState.JumpToToday` | g5.js:172-175 | today is selected and its month and year are displayed, all three together |
| `Calendar.NavigationInverse` | g5.js:138-152 | one step back then one step forward, or the other way round, returns to the same month |
| `Listing.InsertDescending` | g5.js:185 | inserting a new key into a descending sequence keeps it descending and adds exactly that key |
| `Listing.SortKeysDescending` | g5.js:185 | the result lists every key exactly once, in strictly descending order |
| `Listing.DescendingUnique` | g5.js:185 | two descending sequences with the same keys are equal, so the listing order does not depend on key enumeration |
| `Listing.ExportLine` | g5.js:197 | a line of the export text is the date, a comma and a space, the raw text and a newline, so it is 3 characters longer than date and text together and ends with the newline |
| `Listing.ExportText` | g5.js:197 | the left fold of ExportLine over the listed dates, which the loop of `DisplayDiariesList` is proved to compute; it is empty exactly when no date is listed |
| `Listing.ExportTextStartsWithFirst` | g5.js:197 | the export text is the first listed entry's line `date, text` and a newline, followed by the export text of the rest |
| `Listing.Matches` | g5.js:188-191 | the matches counted for one text are non-zero exactly when the case-folded text contains the case-folded term |
| `Listing.MatchTotal` | g5.js:183-191 | the left fold of Matches over the listed dates, which the loop of `DisplayDiariesList` is proved to compute; it is 0 exactly when no listed text has a match |
| `Listing.ListingStep` | g5.js:185-198 | one more listed date appends its line to the export text and adds its matches to the count |
| `Listing.MatchTotalCoversEntries` | g5.js:188-191 | when every listed text contains the term, the match count is at least the number of listed entries |
| `Listing.SameTextsSameTotals` | g5.js:188-197 | the match count and the export text depend only on the texts of the listed dates |
| `Listing.DisplayDiariesList` | g5.js:179-204 | the dates are every key once, newest key first; the total shown is the number of keys; the export text is the line of each date with its raw text, in that order; the match count is 0 without a term and otherwise the case-insensitive occurrences summed over the listed texts |
| `Listing.Filter` | g5.js:229-234 | the surviving entries are exactly those whose text contains the term case-sensitively, with their texts unchanged |
| `Listing.Search` | g5.js:222-236 | a term that trims to nothing is rejected; otherwise the listed dates are exactly those whose text contains the trimmed term, newest first, and the match count is at least the number listed |
| `Listing.SearchOfOneEntry` | g5.js:222-236 | on a record of one entry, a search lists that entry alone and counts its case-insensitive matches when its text contains the term as written, and lists nothing with a count of 0 otherwise |
| `Listing.OtherCaseOnlyIsNotFound` | g5.js:188-236 | searching "hello" over one entry "Hello" lists nothing and counts no match |
| `Listing.ListedEntryCountsOtherCase` | g5.js:188-236 | searching "hi" over one entry "Hi hi" lists it and counts two matches, the one in another case included |
| `Listing.TwoHiMatches` | g5.js:188-191 | "Hi hi" holds two case-insensitive matches of "hi" |
| `Listing.OneEntryTwoMatches` | g5.js:183-236 | searching "cat" over one entry "cat cat dog" lists one entry with two matches |
| `Listing.TwoCatMatches` | g5.js:188-191 | "cat cat dog" holds two matches of "cat" |
| `App.Render` | g5.js:89-135 | a malformed record fails the render; otherwise the label shows `currentYear` and the 1-based month, the grid is the month grid of the Date-constructor year, and the editor shows the selected date's text |
| `App.ClickSave` | g5.js:156-163 | an empty field is refused with nothing written; otherwise the selected date is saved with the field's content, or nothing is written when the record is malformed |
| `App.ClickDelete` | g5.js:165-170 | without confirmation nothing changes; otherwise the selected date is deleted, or nothing is written when the record is malformed |
| `App.ClickClearAll` | g5.js:239-247 | without confirmation nothing changes; otherwise the record is removed, whatever it held |
| `App.ClickShowAll` | g5.js:217-220 | a malformed record fails; otherwise every entry is listed newest first with its total, no match count, and the export text |
| `App.ClickSearch` | g5.js:222-237 | a blank term is refused before the record is read; otherwise the matching entries are listed newest first, with a match count at least their number |

## Left out

- The theme toggle and the saved theme preference (g5.js:26-40) are presentation only.
- DOM construction is not modelled: `innerHTML`, `createElement`, `classList`, the weekday header row and the `selected` class that `displayDiaryEntry` moves. The grid is a sequence of cells; the highlighted HTML of a search hit (g5.js:192) and the HTML of the statistics line are not produced.
- `alert` and `confirm` are not modelled. A confirmation is a boolean parameter, and the alerts are the `Outcome` values.
- `navigator.clipboard.writeText` (g5.js:208-214) is asynchronous and foreign. The model stops at the export text it would copy.
- `localStorage` and `JSON.parse`/`JSON.stringify` are not modelled. The record is a `Slot`, and a stored map survives the JSON round trip unchanged. Two edge cases are not represented: a stored empty-string payload, which `getDiaries` reads as `{}`, and JSON values that are not strings.
- Dates are local-time dates: the program builds every `Date` in the browser's time zone (g5.js:99-101, 117, 129). The model assumes that every calendar day exists in local time. A zone that skips a whole local day breaks this: in Pacific/Apia, 30 December 2011 does not exist, so `new Date(2011, 11, 30)` turns into 31 December and two cells of that month carry the key "2011-12-31". `Calendar.DayKeysDistinct`, `Calendar.TodayMarkerIsToday` and the grid's weekday are proved for the model's exact day arithmetic only.
- `new Date()` reads the wall clock; it is a `today` parameter. Dates beyond JavaScript's range of about 275,760 years, where `Date` becomes invalid, are not modelled.
- At start-up g5.js:20-22 reads `new Date()` three times, once each for `currentMonth`, `currentYear` and `selectedDate`. Started at the very end of a month or a year, the three reads can fall on different days and give a selected day outside the displayed month. The constructor of `Calendar.CalendarState` takes one `today` for all three, so it always starts consistent.
- The model does not re-render after every change. `saveDiaryEntry`, `deleteDiaryEntry`, the navigation handlers and clear-all each call `renderCalendar`; here `App.Render` is a separate operation that the caller runs after a change.
- Text.Occurrences: the search term is treated as a literal string. `new RegExp` with regular-expression metacharacters in the term, which can throw or match other text, is not modelled.
- Text.Fold: case-insensitive matching is modelled for ASCII letters only. The `i` flag's canonicalisation of other letters is not.
- Text.Below: characters compare by Unicode scalar value. JavaScript compares UTF-16 code units, which differs only for characters outside the Basic Multilingual Plane. Date keys are ASCII.
- Strings are sequences of Unicode scalar values. Unpaired UTF-16 surrogates are not represented.
