# LinkedIn posts tracker: the entry log, in Dafny

The tracker keeps one record per user and day. A record's `content` is a single string holding all of that day's entries. Each entry is written as `[ts] body`, where `ts` is a locale time stamp such as `09:45 PM`. Entries are joined by a blank line (`"\n\n"`).

To read a record back, the string is cut at a blank line only when a bracketed time header follows it, so blank lines inside a body survive. Blank pieces are then dropped. This project models that text format and everything that reads or changes it:

- the backend mutations on day records (`addPost`, `deleteEntries`, `editEntry`, `getPosts`);
- the drafts table;
- the dashboard's derived data: week grid, totals and streak, year list, selection and copy, and appending a new entry;
- the 12-hour time picker;
- the conversion of a stamp back to a 24-hour `HH:MM` value when an entry is edited.

The source writes the cut pattern four times (src/lib/utils.ts:59, src/app/page.tsx:76, convex/posts.ts:113 and convex/posts.ts:159), but only two of them differ. They are modelled as two header recognisers feeding one scanner.

- `EntryFormat.MeridiemLen` is the tolerant pattern of `splitEntries` in `src/lib/utils.ts`. It accepts one or two hour digits and an optional AM/PM in either case.
- `EntryFormat.TwoDigitLen` is the strict pattern used both by the page's own `splitEntries` and by the backend's `deleteEntries`/`editEntry`. It requires exactly two hour digits, allows optional seconds, and accepts no AM/PM.

The page writes 12-hour stamps, so the two readings differ. `Page.SplittersDisagree` proves it: two entries written by the page come back as two entries under the tolerant splitter but as one entry under the strict one, which the page and the backend both use.

The page's local `splitEntries` uses the same pattern as the backend's, so `Posts.SplitEntries` models both.

Modules:

- `Text` covers the JavaScript string and number built-ins the code relies on:
  - `trim`, `split`, `padStart`, `String(n)`;
  - `parseInt` (leading digits);
  - `Number` (whole string, trimmed, empty reads as 0).
- `Clock` covers `HH:MM` values, the display hour and period, and the en-US stamp.
- `EntryFormat` holds the scanner, the two recognisers and the header match `/^\[(.*?)\]\s(.*)/s`.
- The other modules follow the source files:
  - `Utils` for `src/lib/utils.ts`;
  - `Posts` for `convex/posts.ts`;
  - `Page` for `src/app/page.tsx`;
  - `TimePicker` for `src/components/time-picker.tsx`;
  - `EntryCard` for `src/components/entry-card.tsx`;
  - `EntriesList` for `src/components/entries-list.tsx`;
  - `Drafts` for `convex/drafts.ts`.

The tables become classes over maps:

- `Posts.PostStore` is keyed by (userId, date).
- `Drafts.DraftTable` is keyed by document id. Ids are handed out in creation order.

Each mutation is one method, and its `ensures` states the whole new table. The time picker is a class with the `hours`, `minutes` and `period` fields its handlers update.

## Model

| member | source | states |
|---|---|---|
| Utils.SplitEntries | src/lib/utils.ts:55-68 | no entry returned is empty or whitespace only |
| Utils.FallbackNeverTaken | src/lib/utils.ts:62-65 | the single-entry fallback never changes the result: the helper equals split-then-filter |
| Utils.SplitEntriesEmpty | src/lib/utils.ts:60-67 | the result is empty exactly when the content is whitespace only |
| Utils.SplitEntriesCuts | src/lib/utils.ts:56-60 | no entry contains a blank line followed by a tolerant header; every entry after the first starts with one |
| Utils.SplitEntriesJoin | src/lib/utils.ts:59-60 | when no piece was dropped, joining the entries with blank lines gives the content back |
| Utils.SplitEntriesOfJoin | src/lib/utils.ts:59-60 | non-blank, cut-free entries, all but the first headed, joined and split again come back unchanged and in order |
| Utils.FormatDate | src/lib/utils.ts:1-7 | a key starts with a digit of the year, and after the year's digits come exactly six characters for a month index below 12 and a day below 100 |
| Utils.FormatDateFields | src/lib/utils.ts:1-7 | the key is the year, `-`, the two-digit month index + 1, `-`, the two-digit day |
| Utils.YearOfFormatDate | src/lib/utils.ts:1-7 | the text before the first `-` of a key is the year and parses back to it |
| Utils.FormatDateInjective | src/lib/utils.ts:1-7 | different dates give different day keys |
| Utils.IntensityClass | src/lib/utils.ts:9-18 | the default class is given exactly to negative counts |
| Utils.IntensityClassLevels | src/lib/utils.ts:9-18 | counts 0, 1, 2 and 3 get pairwise different classes; every count from 3 on shares one |
| Utils.MonthName | src/lib/utils.ts:20-36 | a name exactly for indices 0..11, each three letters |
| Utils.MonthNamesDistinct | src/lib/utils.ts:21-34 | different months have different names |
| Utils.ContainsArabic | src/lib/utils.ts:49-53 | true iff some character lies in U+0600..U+06FF |
| EntryFormat.MeridiemLen | src/lib/utils.ts:59 | a recognised header starts with `[`, ends with `]` and holds no other `[` |
| EntryFormat.TwoDigitLen | src/app/page.tsx:76 | a recognised header is 7 or 10 characters (with seconds), starts with `[`, ends with `]`, holds no `[` or newline |
| EntryFormat.RecognisersShaped | convex/posts.ts:113 | both recognisers look only at the header they find, so a cut never straddles an entry boundary |
| EntryFormat.FirstCut | src/lib/utils.ts:59 | the cut found is a blank line followed by a header, and no earlier position is one |
| EntryFormat.FragmentsJoin | src/lib/utils.ts:60 | the pieces of the split, joined by blank lines, are the input |
| EntryFormat.FragmentsHaveNoCut | src/lib/utils.ts:59 | no piece contains a cut |
| EntryFormat.FragmentsStartWithHeader | src/lib/utils.ts:59 | every piece after the first starts with a header |
| EntryFormat.FragmentsConcat | src/lib/utils.ts:59 | splitting `a + "\n\n" + b` with `b` headed gives the pieces of `a` then those of `b` |
| EntryFormat.FragmentsOfJoin | src/lib/utils.ts:59 | cut-free pieces, all but the first headed, joined and split come back unchanged |
| EntryFormat.KeepNonBlankMembers | src/lib/utils.ts:60 | the filter keeps exactly the non-blank pieces |
| EntryFormat.EntriesEmpty | src/app/page.tsx:77 | split-then-filter is empty exactly for whitespace-only content |
| EntryFormat.EntriesShape | src/app/page.tsx:76-77 | entries are non-blank and cut-free, and all but the first are headed |
| EntryFormat.EntriesJoin | src/app/page.tsx:76-77 | with nothing dropped, the entries joined by blank lines are the content |
| EntryFormat.EntriesOfJoin | convex/posts.ts:113-114 | well-formed entries joined and split again come back unchanged |
| EntryFormat.EntriesAppend | src/app/page.tsx:275 | appending a blank line and a headed entry appends exactly that entry to the split |
| EntryFormat.MatchStamp | src/components/entries-list.tsx:173-175 | matches iff the entry starts with `[` and has a `]` followed by white space; time and body are the text around the first such `]` |
| EntryFormat.MatchStampRoundTrip | src/components/entries-list.tsx:173 | `[t]`, one white-space character and `c`, with no `]`+space inside `t`, read back as (t, c) |
| Posts.SplitEntries | convex/posts.ts:112-114 | there are no entries exactly when the content is whitespace only; each entry's shape is stated by SplitEntriesWellSplit |
| Posts.MergeImages | convex/posts.ts:47-57 | the stored list is the existing ids followed by the new ones, duplicates kept; an empty merge is stored as absent |
| Posts.SortDesc | convex/posts.ts:115 | the indices sorted from the largest down, a permutation of the input |
| Posts.SortDescOrderFree | convex/posts.ts:115 | the order in which indices are passed does not matter |
| Posts.DescendingUnique | convex/posts.ts:115 | two descending orderings of the same indices are equal |
| Posts.RemoveAt | convex/posts.ts:119-121 | an in-range splice removes one element; an out-of-range index changes nothing |
| Posts.RemoveAll | convex/posts.ts:115-122 | the splices one after the other remove at most one element per index and add none |
| Posts.Survivors | convex/posts.ts:115-122 | reference definition of the entries a deletion keeps: at most as many as before, and all of them when nothing is dropped |
| Posts.RemoveAllSurvivors | convex/posts.ts:118-122 | splicing at strictly decreasing positions keeps exactly the elements at other positions, in order |
| Posts.DeleteDistinct | convex/posts.ts:115-122 | with distinct indices the in-range ones are removed and the survivors keep their order, whatever the input order |
| Posts.SpliceAll | convex/posts.ts:118-122 | splicing each index in turn, skipping those outside the current entries, leaves exactly RemoveAll of the entries |
| Posts.DeleteRepeatedIndex | convex/posts.ts:115-122 | a repeated index is not de-duplicated: `[2, 2]` on `a,b,c,d` removes both `c` and `d` |
| Posts.SplitEntriesWellSplit | convex/posts.ts:113-114 | the strict split gives non-blank, cut-free entries, all but the first headed |
| Posts.SplitOfJoin | convex/posts.ts:124 | well-formed entries joined by blank lines split back into themselves |
| Posts.DeleteReadsBack | convex/posts.ts:124-125 | the stored content after a deletion splits back into the survivors, so the stored count is their number |
| Posts.TimeToUse | convex/posts.ts:164-180 | a given new time is shown through `display`; without one, a time is kept exactly when the entry starts with `[` and has a `]` followed by white space, and it is the text between them, with no such `]` inside |
| Posts.EditedEntry | convex/posts.ts:182-185 | the edited entry ends with the trimmed new text, preceded either by nothing or by a `[`-opened header and a space |
| Posts.EditKeepsTime | convex/posts.ts:175-185 | without a new time, the edited entry carries the original header's time and the trimmed new text |
| Posts.EditWithoutHeader | convex/posts.ts:176-185 | an entry without a header (or with an empty time) becomes the trimmed text alone |
| Posts.EditNewTime | convex/posts.ts:166-184 | a new time is written as the header of the edited entry |
| Posts.EditReadsBack | convex/posts.ts:187-188 | when the new entry is non-blank, cut-free and, unless it is the first entry, starts with a strict two-digit header, the content splits back into the old entries with only that one replaced; an edit at index > 0 that writes a 12-hour stamp does not meet that condition |
| Posts.PostStore.GetPosts | convex/posts.ts:5-27 | the user's records keyed by their date, each as stored |
| Posts.PostStore.AddPost | convex/posts.ts:29-72 | an existing record gets the new content and count and merged images under its id; otherwise a fresh id is inserted |
| Posts.PostStore.DeleteEntries | convex/posts.ts:95-138 | missing record: no change; otherwise the survivors joined with their number as count, or the record removed when none survive |
| Posts.PostStore.EditEntry | convex/posts.ts:140-195 | missing record or index out of range: no change; otherwise only that entry is replaced and the count is untouched |
| Page.SplittersDisagree | src/app/page.tsx:73-78 | two entries written with 12-hour stamps split into two under the tolerant pattern but stay one under the strict one |
| Page.StampHeader | src/app/page.tsx:271 | a written entry starts with a 10-character tolerant header and no strict header |
| Page.WrittenEntry | src/app/page.tsx:271 | a written entry whose text has no `[` is non-blank and cut-free under both patterns |
| Page.EntryTimeOfDay | src/app/page.tsx:256-268 | an empty entry time stamps the current time; otherwise the hour and minute the entry time sets, wrapped into one day (hour < 24, minute < 60) |
| Page.TimeOfDay | src/app/page.tsx:260 | `setHours(h, m)` lands on the minute of the day (h·60 + m) mod 1440 |
| Page.EntryTimeOfHourMinute | src/app/page.tsx:256-260 | an `HH:MM` value within the day is non-empty, so it is read rather than replaced by the current time, and sets exactly that hour and minute |
| Page.NewEntry | src/app/page.tsx:254-271 | the new entry is longer than its stamp and opens with `[` |
| Page.NewEntryReadsBack | src/app/page.tsx:254-271 | the new entry's header match reads back the stamp and the trimmed input, or `(image entry)` when the input trims to nothing |
| Page.Submit | src/app/page.tsx:247-277 | nothing is saved exactly when there is no user, nothing to save, or an upload is running |
| Page.NewEntryBody | src/app/page.tsx:254-271 | the entry body is the trimmed input, or `(image entry)` when that is empty; never blank |
| Page.SubmitAppends | src/app/page.tsx:271-277 | under the tolerant splitter of src/lib/utils.ts, which none of the modelled files calls, the saved content splits into the old entries plus the new one, and the count (old count + 1) stays equal to the entry count |
| Page.SecondSubmitMiscounts | src/app/page.tsx:271-277 | two submissions to an empty day store a count of 2, while the strict splitter that the page and the backend read with finds one entry and the tolerant one finds two |
| Page.SubmitThenEdit | src/app/page.tsx:255-275 | an entry written by the page, shown as its own card, opens for editing with its text and the `HH:MM` it was written with; on the page an appended entry is its own card only when it is the day's first, because the strict splitter does not cut before it |
| Page.CalendarData | src/app/page.tsx:152-170 | one cell per day in order, with weekdays cycling from the first day's and each day's record count, or 0 without a record |
| Page.CalendarTotals | src/app/page.tsx:152-170 | over distinct day keys the calendar's counts add up to the total of the records kept for those days (0 before loading) |
| Page.Weeks | src/app/page.tsx:172-200 | every week has 7 slots; the slots read in order are as many blanks as the first weekday, the days, then fewer than 7 blanks |
| Page.WeeksHoldCalendar | src/app/page.tsx:184-190 | the days read off the grid, skipping blanks, are the calendar in order |
| Page.SumCountsRemove | src/app/page.tsx:204-207 | the total is the same whichever record is taken first |
| Page.SumCountsIncrement | src/app/page.tsx:273-276 | adding one entry to a record adds one to the total |
| Page.TotalPosts | src/app/page.tsx:204-207 | the sum of the counts of all records |
| Page.CurrentStreak | src/app/page.tsx:208-222 | the days (start - streak, start] are all active and the day before is not; start is yesterday when today has no posts |
| Page.Stats | src/app/page.tsx:202-224 | zero and zero before loading, otherwise the total and the streak above |
| Page.YearOf | src/app/page.tsx:231 | `parseInt` of the text before the first `-` gives a year exactly when the key starts with a digit; `Utils.YearOfFormatDate` shows that it reads back the year of every formatted key |
| Page.InsertYear | src/app/page.tsx:233-234 | adding a year keeps the list strictly descending and adds exactly that year |
| Page.AvailableYears | src/app/page.tsx:226-235 | the base years as listed before loading; afterwards exactly the base years and every record's year, each once, strictly descending |
| Page.RecordYearOffered | src/app/page.tsx:229-233 | the year of every day key written by the date formatter is offered |
| Page.OffersYearsUnique | src/app/page.tsx:233-234 | the year list is determined by the records, whatever order their keys come in |
| Page.ToggleEntrySelection | src/app/page.tsx:409-419 | exactly the toggled index changes membership |
| Page.ToggleSelectAll | src/app/page.tsx:421-427 | clears the selection when its size equals the entry count, else selects 0..n-1 |
| Page.SelectionFull | src/app/page.tsx:422 | for a selection of existing positions, size n means every entry is selected |
| Page.Selected | src/app/page.tsx:445-447 | no more entries than the day has, each one of the day's entries |
| Page.SelectedAreSurvivors | src/app/page.tsx:446-447 | the copied entries are those a deletion of every unselected position leaves, in order |
| Page.SelectAllCopiesAll | src/app/page.tsx:446-448 | selecting all copies every entry; selecting none copies nothing |
| Page.BulkCopy | src/app/page.tsx:445-448 | for well-split entries, the copied text splits back strictly into exactly the selected entries |
| Page.BulkCopyReadsBack | src/app/page.tsx:445-448 | the copied text splits back into exactly the selected entries |
| Clock.HourMinuteFields | src/components/time-picker.tsx:110 | an `HH:MM` value splits at its colon into two parts that read back as the hour and minute |
| Clock.DisplayHour | src/components/time-picker.tsx:25 | every hour of the day shows as 1..12, at the same place on a 12-hour dial |
| Clock.PeriodOf | src/components/time-picker.tsx:44 | the period is the one under which the displayed hour converts back to the hour of the day |
| Clock.To24 | src/components/time-picker.tsx:97-100 | an hour 1..12 converts to an hour of the day at the same place on the dial, in the afternoon half exactly for PM |
| Clock.To24RoundTrip | src/components/time-picker.tsx:97-100 | every 12-hour reading converts to an hour of the day shown as that reading again |
| Clock.LocaleStampShape | src/app/page.tsx:261-264 | the stamp is two hour digits, `:`, two minute digits, a space and AM/PM (PM iff h ≥ 12), and its fields parse back |
| TimePicker.ValueHour | src/components/time-picker.tsx:23 | an empty value has no hour; `TimePicker.ValueOfHourMinute` shows an `HH:MM` value reads back its hour |
| TimePicker.ValueMinute | src/components/time-picker.tsx:34 | a value without a colon has no minute (NaN); `TimePicker.ValueOfHourMinute` shows an `HH:MM` value reads back its minute |
| TimePicker.ValueOfHourMinute | src/components/time-picker.tsx:23-34 | an `HH:MM` value reads back as its hour and minute |
| TimePicker.InitialHours | src/components/time-picker.tsx:21-30 | the initial hour field holds only digits |
| TimePicker.InitialMinutes | src/components/time-picker.tsx:32-38 | the initial minute field holds only digits |
| TimePicker.InitialPeriod | src/components/time-picker.tsx:40-48 | the initial period is the one under which the shown hour converts back to the value's hour, or to the current hour when the value has no hour |
| TimePicker.UpdateTime | src/components/time-picker.tsx:80-111 | nothing is reported exactly when a non-empty field does not parse; otherwise an `HH:MM` with hour < 24 and minute < 60 |
| TimePicker.UpdateTimeBothEmpty | src/components/time-picker.tsx:85-91 | both fields empty reports the current time |
| TimePicker.UpdateTimeDefaults | src/components/time-picker.tsx:93-103 | an empty minute counts as 0; an empty hour counts as 12 in the picker's own period; hour 0 counts as 12 |
| TimePicker.UpdateTimeConverts | src/components/time-picker.tsx:97-110 | hour 1..12 with a period reports the 24-hour conversion, zero-padded |
| TimePicker.UpdateTimeClamps | src/components/time-picker.tsx:106-110 | 13 PM and minute 75 are clamped to `23:59` |
| TimePicker.PickerRoundTrip | src/components/time-picker.tsx:21-111 | the fields derived from an `HH:MM` value report that same value |
| TimePicker.UpdateTimeReadsNumbers | src/components/time-picker.tsx:94 | hour texts with the same numeric reading report the same value |
| TimePicker.Flip | src/components/time-picker.tsx:149 | the toggled period differs from the old one |
| TimePicker.FlipTwice | src/components/time-picker.tsx:148-152 | toggling twice restores the period |
| TimePicker.SyncThenReport | src/components/time-picker.tsx:55-111 | after the fields are synchronised with a value, the picker reports that value |
| TimePicker.TimePicker.constructor | src/components/time-picker.tsx:21-48 | fields start as the value's display hour, minute and period (period of now without a value) |
| TimePicker.TimePicker.Sync | src/components/time-picker.tsx:55-78 | fields are rewritten only when their numeric reading differs from the value; an empty value clears them |
| TimePicker.TimePicker.HoursChange | src/components/time-picker.tsx:113-131 | non-digits stripped; at most two digits accepted; reports only for empty input or 1..12 |
| TimePicker.TimePicker.MinutesChange | src/components/time-picker.tsx:133-146 | non-digits stripped; at most two digits accepted; reports only for empty input or 0..59 |
| TimePicker.TimePicker.PeriodToggle | src/components/time-picker.tsx:148-152 | flips the period and reports with the new one, except that an empty hour field reports with the old period, as the stale `period` read at time-picker.tsx:82 does |
| TimePicker.TimePicker.HoursBlur | src/components/time-picker.tsx:186-202 | an hour outside 1..12 is reset to the current display hour; a valid one is reported as read |
| TimePicker.TimePicker.MinutesBlur | src/components/time-picker.tsx:204-223 | empty or out-of-range minutes become `00`, valid ones are zero-padded; the field is two digits below 60 |
| EntryCard.ClockAt | src/components/entry-card.tsx:75 | a match at a position needs an AM/PM pair after it; hour and minute are below 100 |
| EntryCard.FindClock | src/components/entry-card.tsx:75 | the match found is the leftmost one; none found means none exists |
| EntryCard.NoClockWithoutPeriod | src/components/entry-card.tsx:75-76 | text with no A or P letter has no clock match |
| EntryCard.ParseTimeForEdit | src/components/entry-card.tsx:67-99 | whatever the stamp, the editor is given an hour-minute value `HH:MM` and never an error |
| EntryCard.ReadStamp | src/components/entry-card.tsx:75-91 | a trimmed stamp yields an `HH:MM` value: its leftmost 12-hour clock converted, else its colon reading |
| EntryCard.ReadColon | src/components/entry-card.tsx:87-91 | the colon reading yields an `HH:MM` value: both numbers when they read, else the current time |
| EntryCard.EditWithoutTime | src/components/entry-card.tsx:68-71 | a missing or empty time edits from the current time |
| EntryCard.ReadTrimmed | src/components/entry-card.tsx:74 | a time without outer white space is read as is |
| EntryCard.EditOfLocaleStamp | src/components/entry-card.tsx:75-86 | the stamp written for h:m converts back to `HH:MM` of h:m |
| EntryCard.EditOfClock | src/components/entry-card.tsx:77-86 | a leftmost clock with hour 1..12 converts to the 24-hour hour shown as that hour and period |
| EntryCard.EditOfHourMinute | src/components/entry-card.tsx:87-91 | colon-separated digit groups read as their first two numbers, padded |
| EntryCard.EditKeepsOutOfRange | src/components/entry-card.tsx:88-90 | the colon reading has no range check: `99:99` stays `99:99` |
| EntryCard.EditOfUnreadable | src/components/entry-card.tsx:97-98 | an unreadable time edits from the current time |
| EntriesList.CardOf | src/components/entries-list.tsx:172-177 | a headed entry shows its time and the rest after one white-space character; any other entry has no time and is its own content |
| EntriesList.Cards | src/components/entries-list.tsx:172 | one card per entry, in order |
| EntriesList.LastEntryUnique | src/components/entries-list.tsx:176 | exactly one card, the last, is marked last (none without entries) |
| EntriesList.CardRoundTrip | src/components/entries-list.tsx:173-175 | an entry written as `[t] c` shows time t and content c |
| EntriesList.EditStart | src/components/entries-list.tsx:199-233 | the edit starts from the card's index and content with an `HH:MM` value; the current time for a card without a time |
| EntriesList.EditStartOfWritten | src/components/entries-list.tsx:199-233 | editing an entry written at h:m starts from its text and `HH:MM` of h:m |
| EntriesList.EditStartWithoutHeader | src/components/entries-list.tsx:229-233 | an entry without a header starts its edit from the whole entry and the current time |
| Drafts.DraftsOf | convex/drafts.ts:7-11 | at most one draft per id below the bound, each a stored row of that user |
| Drafts.DraftsOfListsUser | convex/drafts.ts:7-11 | the listing holds exactly the user's drafts, each as stored, newest first |
| Drafts.Toggled | convex/drafts.ts:37-42 | only the draft's posted flag flips; a missing id changes nothing |
| Drafts.ToggleTwice | convex/drafts.ts:40-42 | toggling twice restores the table |
| Drafts.AddedListedFirst | convex/drafts.ts:23-28 | a new draft is listed first among its author's drafts, before all earlier ones |
| Drafts.DraftTable.GetDrafts | convex/drafts.ts:4-15 | the user's drafts, each as stored, strictly newest first, none missing |
| Drafts.DraftTable.AddDraft | convex/drafts.ts:17-30 | a new row with the trimmed text, not posted, stamped now, under a fresh id |
| Drafts.DraftTable.ToggleDraft | convex/drafts.ts:32-44 | the table becomes the toggled table; ids unchanged |
| Drafts.DraftTable.DeleteDraft | convex/drafts.ts:46-53 | exactly that id is removed |

## Findings

| source | as written | input that shows it | evidently intended | confidence | as-written member | corrected member |
|---|---|---|---|---|---|---|
| src/app/page.tsx:73-78, 271-277 | each submit writes a 12-hour stamp `[hh:mm AM]` and adds one to the count, but the page (page.tsx:76) and the backend (convex/posts.ts:113) split with a pattern that has no AM/PM, so no cut is made before an appended entry; an edit with a new time (page.tsx:869, convex/posts.ts:166-188) writes the same 12-hour header, so an edit at index > 0 merges that entry into the one before while the count stays | two submissions to an empty day: count 2, one entry read | the stored count equals the number of entries read; the tolerant splitter of src/lib/utils.ts:55-68 (imported by src/components/entries-list.tsx:6 but not called) reads them so | not executed | Page.SecondSubmitMiscounts | Page.SubmitAppends |

The store's own operations keep the strict reading that the backend uses (`Posts.SplitEntries`), so deletions and edits are modelled as the code runs them. The edit path drifts the same way: `Posts.EditReadsBack` holds only when an edited entry at index > 0 starts with a strict two-digit header, and the 12-hour header that `editEntry` writes for a new time (convex/posts.ts:166-184) is not one.

## Left out

- Locale formatting: `toLocaleTimeString("en-US", …)` is a parameter. It is the `stamp` of `Page.Submit` and the `display` of `Posts.PostStore.EditEntry`. `Clock.LocaleStamp` gives the en-US shape (`hh:mm`, a space, AM/PM) that the lemmas assume. The locale data itself is not modelled, nor is `toLocaleDateString`, nor `formatDateForTooltip` (src/lib/utils.ts:38-47).
- Numbers: `Number` and `parseInt` are modelled for unsigned decimal digits only.
  - Signs, decimal points, exponents, hexadecimal and `Infinity` are not modelled; such text reads as NaN.
  - The type-in handlers strip non-digits, so the picker never sees those forms.
- Dates: `Date` objects become integers.
  - `calendarData` takes the year's day keys and the weekday of January 1.
  - The streak takes today's day number and an injective day-key function.
  - The wall clock (`Date.now()`, `new Date()`) is a parameter.
- Page.AvailableYears: every record key must have a numeric year before its first `-`. A NaN year, which the source would put into the list, is not modelled. The key order is a parameter.
- Backend I/O: not modelled.
  - The Convex database becomes a map.
  - Storage calls are out: `generateUploadUrl`, `getImageUrl`, `getImageUrls` (convex/posts.ts:74-93), and the upload loop with `fetch` and JSON parsing (src/app/page.tsx:281-307).
  - `Page.Submit` stops at the content and count it would save.
- Posts.PostStore.GetPosts: each stored record is returned whole. The source copies only `date`, `content`, `count`, `lastUpdated` and `imageIds` into its result; leaving out `_id` and `userId` is not modelled.
- Drafts.DraftTable.DeleteDraft: deleting an id with no draft is modelled as no change. The database's error for that case is not modelled.
- Drafts.DraftTable.GetDrafts: "newest first" is modelled as descending document id, because ids are handed out in creation order.
- React behaviour is not modelled: rendering, hooks, effects, refs, focus and keyboard navigation, textarea sizing, the clipboard write, `confirm`, scrolling. `handleCopyAllPosts` and the other UI files are also out.
- Concurrency: each mutation is one atomic step, and cross-tab interleaving is not modelled.
- Entry indices: the `v.number()` arguments `entryIndices` and `entryIndex` of convex/posts.ts are modelled as `int`. A fractional index is not modelled. `deleteEntries` would splice at its truncation, and `editEntry` would set a non-index property and change nothing.

