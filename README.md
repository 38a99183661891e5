# Journal app core, modelled in Dafny

This project models the data logic of a small Android journaling app. Each
journal entry has the following:

- a creation instant, a title and a body;
- up to three mood emojis, with a mood rating derived from the first one;
- four yes/no toggles;
- the hours slept.

Entries live in a repository that keeps the current snapshot and writes
each change to a database. The parts modelled are:

- **Metrics aggregation** (`metrics.dfy`, `entry_order.dfy`). Entries are
  grouped by local day. The chart then covers either the whole date range or
  only the days of the range that have entries. For each day it shows the
  latest non-zero sleep, the mean mood (or none) and the four toggle counts.
  When no range is chosen yet, the chart starts from the span of the entries.
- **Editor helpers** (`editor.dfy`):
  - selecting and deselecting mood emojis, at most three, with the oldest
    evicted;
  - the rating taken from the first emoji;
  - the sleep value the editor starts from.
- **Calendar** (`calendar.dfy`):
  - the 42-cell month grid that starts on a Sunday;
  - Prev/Next month navigation;
  - the guard on the add-todo field.

  Dates are epoch days in the proleptic Gregorian calendar.
- **Storage mapping** (`journal_repository.dfy`, `converters.dfy`):
  - the comma-separated column for mood emojis;
  - the entity/UI field mapping, with sleep stored as whole minutes;
  - the epoch-second converter for instants.
- **Backup and restore** (`settings.dfy`). Entries are exported to JSON
  records and the import loop restores each record as a new entry.
- **Repository** (`in_memory_repository.dfy`). The store is a class that
  holds the entries and the next id. `addEntry`, `addTodo`, `toggleTodo`,
  `deleteEntry` and `restoreEntry` are methods on it. `todosOn` reads todos
  off the snapshot.
- **Preferences** (`preferences.dfy`). The key-value store is a class with
  a `map` field. Each setter writes one key, and `Decode` turns a snapshot
  into the settings record with its defaults.

Representations:

- An instant is an `int` of nanoseconds since the epoch.
- A local date is an `int` epoch day.
- The time zone enters only through two function parameters:
  - `localDate: Instant -> LocalDate`, the local date of an instant;
  - `startOfDay: LocalDate -> Instant`, the first instant of a date.
- Sleep hours and mood means are `real`.
- Kotlin's `trim`, `isBlank`, `split` and `joinToString` are modelled in
  `kotlin_text.dfy`.
- The stable `sortedBy` is modelled as an insertion sort. Its result is
  characterised apart from the algorithm: the latest entry by `createdAt`
  wins, and on a tie the later one in input order wins.

## Model

| member | source | states |
|---|---|---|
| JournalModel.ToEpochMilli | app/src/main/java/com/markrogers/journal/ui/settings/SettingsScreen.kt:38 | `toEpochMilli` gives the whole milliseconds of an instant, rounded towards the past |
| EntryOrder.SortByCreatedAt | app/src/main/java/com/markrogers/journal/ui/metrics/MetricsScreen.kt:357-358 | `sortedBy { createdAt }` returns a permutation of its input, sorted by `createdAt` |
| EntryOrder.InsertByCreatedAt | app/src/main/java/com/markrogers/journal/ui/metrics/MetricsScreen.kt:358 | one step of the stable sort: the result is the input plus one element, which goes first only if it is earlier than the head |
| EntryOrder.InsertKeepsSorted | app/src/main/java/com/markrogers/journal/ui/metrics/MetricsScreen.kt:358 | inserting into a list sorted by `createdAt` keeps it sorted |
| EntryOrder.LatestCharacterized | app/src/main/java/com/markrogers/journal/ui/metrics/MetricsScreen.kt:356-362 | the reference fold finds no entry iff no sleep is positive; otherwise it finds the latest positive-sleep entry by `createdAt`, the later one in input order on a tie |
| EntryOrder.SortedLastPositiveIsLatest | app/src/main/java/com/markrogers/journal/ui/metrics/MetricsScreen.kt:357-361 | the last positive-sleep entry after the stable sort is the one the reference fold picks |
| EntryOrder.LatestPositiveSleepSpec | app/src/main/java/com/markrogers/journal/ui/metrics/MetricsScreen.kt:356-362 | the sleep pipeline is null iff no sleep is positive; otherwise it is the sleep of the unique latest positive entry, ties going to input order |
| EntryOrder.LatestPositiveUnique | app/src/main/java/com/markrogers/journal/ui/metrics/MetricsScreen.kt:357-361 | at most one entry is the latest with positive sleep, so the stable sort's choice is determined |
| EntryOrder.LastPositiveConcat | app/src/main/java/com/markrogers/journal/ui/metrics/MetricsScreen.kt:360-361 | `filter { > 0 }.lastOrNull()` over a concatenation takes the second part's answer when it has one |
| Metrics.EntriesOn | app/src/main/java/com/markrogers/journal/ui/metrics/MetricsScreen.kt:346-365 | a day's group holds only entries of that local date, and it is empty iff the day has no entry |
| Metrics.EntriesOnIsFilter | app/src/main/java/com/markrogers/journal/ui/metrics/MetricsScreen.kt:346-365 | an entry is in a day's group iff it is an entry of the input with that local date |
| Metrics.EntriesOnConcat | app/src/main/java/com/markrogers/journal/ui/metrics/MetricsScreen.kt:346 | `groupBy` keeps input order within a group: the group of a concatenation is the concatenation of the groups |
| Metrics.GroupKeys | app/src/main/java/com/markrogers/journal/ui/metrics/MetricsScreen.kt:346 | the keys of `groupBy` are distinct and are exactly the local dates that have entries |
| Metrics.CompactDates | app/src/main/java/com/markrogers/journal/ui/metrics/MetricsScreen.kt:348-349 | compact mode's dates are strictly ascending and are exactly the in-range dates with entries |
| Metrics.InsertDate | app/src/main/java/com/markrogers/journal/ui/metrics/MetricsScreen.kt:349 | one step of `sorted()`: the result is the input plus one date |
| Metrics.InsertDateAscending | app/src/main/java/com/markrogers/journal/ui/metrics/MetricsScreen.kt:349 | inserting into ascending dates keeps them ascending |
| Metrics.SortDates | app/src/main/java/com/markrogers/journal/ui/metrics/MetricsScreen.kt:349 | `sorted()` returns an ascending permutation |
| Metrics.SortDistinctDates | app/src/main/java/com/markrogers/journal/ui/metrics/MetricsScreen.kt:349 | sorting distinct dates gives a strictly ascending list |
| Metrics.DateRange | app/src/main/java/com/markrogers/journal/ui/metrics/MetricsScreen.kt:351-353 | `generateSequence`/`takeWhile` yields `end - start + 1` dates from `start` to `end`, each one day after the previous |
| Metrics.AggregateDays | app/src/main/java/com/markrogers/journal/ui/metrics/MetricsScreen.kt:338-379 | empty when `end` is before `start`; every emitted day lies in the range, strictly ascending, and carries the aggregate of that date's entries |
| Metrics.AggregateFullRange | app/src/main/java/com/markrogers/journal/ui/metrics/MetricsScreen.kt:351-353 | non-compact mode emits one day per date of the range, the `i`-th being `start + i` |
| Metrics.AggregateCompact | app/src/main/java/com/markrogers/journal/ui/metrics/MetricsScreen.kt:346-349 | compact mode emits a date iff it is in the range and has an entry; it never emits more days than the range has |
| Metrics.AggregateIgnoresOutOfRange | app/src/main/java/com/markrogers/journal/ui/metrics/MetricsScreen.kt:346-365 | dropping the entries dated outside the range leaves the result unchanged, in both modes |
| Metrics.DaySleep | app/src/main/java/com/markrogers/journal/ui/metrics/MetricsScreen.kt:356-366 | a day's sleep is 0 iff none of its entries has positive sleep; otherwise it is the sleep of the latest positive entry |
| Metrics.Ratings | app/src/main/java/com/markrogers/journal/ui/metrics/MetricsScreen.kt:367 | `mapNotNull { moodRating }` is empty iff no entry has a rating, is no longer than its input, and for one entry is its rating or nothing |
| Metrics.RatingsConcat | app/src/main/java/com/markrogers/journal/ui/metrics/MetricsScreen.kt:367 | `mapNotNull` keeps order: the ratings of a concatenation are the concatenation of the ratings |
| Metrics.SumBounds | app/src/main/java/com/markrogers/journal/ui/metrics/MetricsScreen.kt:368 | a sum of ratings within `[lo, hi]` lies within `lo·n` and `hi·n` |
| Metrics.MoodMeanIsMean | app/src/main/java/com/markrogers/journal/ui/metrics/MetricsScreen.kt:367-368 | `average()` of the present ratings: the mean times their number is their sum |
| Metrics.MoodMeanSpec | app/src/main/java/com/markrogers/journal/ui/metrics/MetricsScreen.kt:367-368 | the mean is null (not 0) iff no entry has a rating; otherwise it times the number of ratings is their sum, and with ratings in `[lo, hi]` it lies in `[lo, hi]` |
| Metrics.DayMood | app/src/main/java/com/markrogers/journal/ui/metrics/MetricsScreen.kt:365-368 | a day's mood is null iff none of that day's entries has a rating; otherwise it is the mean of those entries' ratings and lies within their bounds |
| Metrics.CountToggle | app/src/main/java/com/markrogers/journal/ui/metrics/MetricsScreen.kt:373-376 | a toggle count never exceeds the number of entries of the day |
| Metrics.EmptyDay | app/src/main/java/com/markrogers/journal/ui/metrics/MetricsScreen.kt:365-377 | a day without entries has sleep 0, mood null and all four counts 0 |
| Metrics.AggregateToggleTotals | app/src/main/java/com/markrogers/journal/ui/metrics/MetricsScreen.kt:365-377 | in either mode, the day counts of a toggle add up to the number of in-range entries with that toggle set |
| Metrics.DaysForTotal | app/src/main/java/com/markrogers/journal/ui/metrics/MetricsScreen.kt:364-377 | over distinct dates, the summed counts equal the counted entries of those dates |
| Metrics.InitialRange | app/src/main/java/com/markrogers/journal/ui/metrics/MetricsScreen.kt:49-60 | a set range is kept; with no entries the range is `today - 14 .. today`; otherwise it runs from the earliest to the latest entry date, both attained |
| Metrics.InitialRangeCoversEntries | app/src/main/java/com/markrogers/journal/ui/metrics/MetricsScreen.kt:51-54 | the initial range covers every entry, and its first and last days have entries |
| Metrics.MinDate | app/src/main/java/com/markrogers/journal/ui/metrics/MetricsScreen.kt:53 | `minOrNull` of a non-empty list is an element no greater than any other |
| Metrics.MaxDate | app/src/main/java/com/markrogers/journal/ui/metrics/MetricsScreen.kt:54 | `maxOrNull` of a non-empty list is an element no smaller than any other |
| Editor.Without | app/src/main/java/com/markrogers/journal/ui/editor/EditorScreen.kt:410 | `filterNot` removes every copy of the emoji and keeps every other element's count |
| Editor.WithoutConcat | app/src/main/java/com/markrogers/journal/ui/editor/EditorScreen.kt:410 | removal distributes over concatenation, so the kept elements keep their order |
| Editor.ToggleEmoji | app/src/main/java/com/markrogers/journal/ui/editor/EditorScreen.kt:409-413 | a selected emoji is removed (every copy) and the others kept in order, as `Without` gives; an unselected one is appended last, and past the limit the oldest are dropped so exactly `limit` remain |
| Editor.ToggleKeepsSelection | app/src/main/java/com/markrogers/journal/ui/editor/EditorScreen.kt:409-413 | a selection within the limit and without repeats stays so after any toggle |
| Editor.ToggleTwice | app/src/main/java/com/markrogers/journal/ui/editor/EditorScreen.kt:410-412 | toggling an unselected emoji twice while there is room restores the list |
| Editor.MoodRatingFromEmojis | app/src/main/java/com/markrogers/journal/ui/editor/EditorScreen.kt:416-426 | null for no emojis; a present rating is in 1..5 |
| Editor.MoodRatingFirstOnly | app/src/main/java/com/markrogers/journal/ui/editor/EditorScreen.kt:417 | the rating depends only on the first emoji |
| Editor.MoodRatingOutsideTable | app/src/main/java/com/markrogers/journal/ui/editor/EditorScreen.kt:418-425 | emojis outside the table (sleeping face; the dizzy face joined with a spiral) rate null, and later emojis do not count |
| Editor.SleepPrefillSpec | app/src/main/java/com/markrogers/journal/ui/editor/EditorScreen.kt:72-86 | the prefill is 7 when no entry of today has sleep set; otherwise it is the latest such sleep, always positive, and equal to the sleep the metrics chart shows for today |
| Calendar.MonthLength | app/src/main/java/com/markrogers/journal/ui/calendar/CalendarScreen.kt:195-198 | a month has 28 to 31 days |
| Calendar.YearSpan | app/src/main/java/com/markrogers/journal/ui/calendar/CalendarScreen.kt:195 | the epoch-day count of the first of a year advances by 366 over a leap year and by 365 otherwise |
| Calendar.NextMonthStart | app/src/main/java/com/markrogers/journal/ui/calendar/CalendarScreen.kt:195-198 | the first of the next month is one month length after the first of this month |
| Calendar.DayOfWeek | app/src/main/java/com/markrogers/journal/ui/calendar/CalendarScreen.kt:196 | `dayOfWeek.value` is in 1..7 |
| Calendar.SundayBefore | app/src/main/java/com/markrogers/journal/ui/calendar/CalendarScreen.kt:196-197 | stepping back `dayOfWeek % 7` days lands on a Sunday |
| Calendar.Lead | app/src/main/java/com/markrogers/journal/ui/calendar/CalendarScreen.kt:196 | the grid's leading offset is in 0..6 |
| Calendar.DaysForMonth | app/src/main/java/com/markrogers/journal/ui/calendar/CalendarScreen.kt:194-199 | 42 consecutive dates, the first a Sunday, the 1st of the month at the lead offset and every day of the month at its place in the grid |
| Calendar.PlusMonths | app/src/main/java/com/markrogers/journal/ui/calendar/CalendarScreen.kt:53-54 | `plusMonths(k)` moves the month index by exactly `k` |
| Calendar.MonthIndexInjective | app/src/main/java/com/markrogers/journal/ui/calendar/CalendarScreen.kt:53-54 | a year-month is determined by its month index |
| Calendar.NextRollsOver | app/src/main/java/com/markrogers/journal/ui/calendar/CalendarScreen.kt:54 | Next advances the month and rolls December into January of the next year |
| Calendar.PrevRollsOver | app/src/main/java/com/markrogers/journal/ui/calendar/CalendarScreen.kt:53 | Prev steps the month back and rolls January into December of the previous year |
| Calendar.NavigationInverse | app/src/main/java/com/markrogers/journal/ui/calendar/CalendarScreen.kt:53-54 | Prev undoes Next and Next undoes Prev |
| Calendar.SubmitTodo | app/src/main/java/com/markrogers/journal/ui/calendar/CalendarScreen.kt:140-146 | nothing is added iff the field is blank, and then the field is kept; otherwise the field's `trim()`, non-empty, is added and the field is cleared |
| KotlinText.Trim | app/src/main/java/com/markrogers/journal/data/db/JournalRepository.kt:11 | `trim()` returns a slice of its input with no whitespace at either end and only whitespace cut off; it is empty iff the input is blank, and a trimmed string is its own trim |
| KotlinText.SplitJoin | app/src/main/java/com/markrogers/journal/data/db/JournalRepository.kt:9-11 | `split` undoes `joinToString` over pieces without the separator |
| KotlinText.JoinSplit | app/src/main/java/com/markrogers/journal/data/db/JournalRepository.kt:9-11 | `joinToString` with the same separator undoes `split`: the pieces are exactly the segments between delimiters |
| JournalRepository.FromCsv | app/src/main/java/com/markrogers/journal/data/db/JournalRepository.kt:10-11 | a blank column is the empty list; otherwise there is one piece per comma plus one, each the trim of the split segment at its position, so trimmed and comma-free |
| JournalRepository.FromCsvSegments | app/src/main/java/com/markrogers/journal/data/db/JournalRepository.kt:10-11 | for any cut of a non-blank column at its commas into comma-free segments, reading gives those segments trimmed, in order |
| JournalRepository.CsvRoundTrip | app/src/main/java/com/markrogers/journal/data/db/JournalRepository.kt:9-11 | reading back the CSV of a list whose elements are non-empty, comma-free and trimmed gives the list |
| JournalRepository.RoundToInt | app/src/main/java/com/markrogers/journal/data/db/JournalRepository.kt:40 | `roundToInt` is within half a unit of its argument |
| JournalRepository.StorageRoundTrip | app/src/main/java/com/markrogers/journal/data/db/JournalRepository.kt:13-41 | `toUi(toEntity(e))` keeps every field except sleep (rounded to the minute, 0 when not positive) and the pinned and test flags, which come back false; sleep minutes are null iff sleep is not positive |
| JournalRepository.StoredSleepField | app/src/main/java/com/markrogers/journal/data/db/JournalRepository.kt:25-40 | sleep read back is the minute-rounded value and never negative; the stored minutes are null iff sleep is not positive |
| JournalRepository.MinutesRoundTrip | app/src/main/java/com/markrogers/journal/data/db/JournalRepository.kt:25-40 | a positive whole number of minutes turned into hours is positive and rounds back to the same minutes |
| JournalRepository.StoredSleepPrecision | app/src/main/java/com/markrogers/journal/data/db/JournalRepository.kt:25-40 | positive sleep is kept to within half a minute |
| JournalRepository.RowRoundTrip | app/src/main/java/com/markrogers/journal/data/db/JournalRepository.kt:13-41 | `toEntity(toUi(row))` is the row when its minutes are null or positive and its CSV is in written form |
| Converters.ToInstant | app/src/main/java/com/markrogers/journal/data/db/Converters.kt:7-8 | null iff the column is null; an instant from seconds has no sub-second part |
| Converters.FromInstant | app/src/main/java/com/markrogers/journal/data/db/Converters.kt:10-11 | null iff the instant is null; otherwise the whole seconds, floored |
| Converters.SecondsRoundTrip | app/src/main/java/com/markrogers/journal/data/db/Converters.kt:7-11 | `fromInstant(toInstant(s)) == s`, null included |
| Converters.InstantRoundTrip | app/src/main/java/com/markrogers/journal/data/db/Converters.kt:7-11 | `toInstant(fromInstant(i))` is `i` floored to the second, less than a second earlier |
| Settings.Export | app/src/main/java/com/markrogers/journal/ui/settings/SettingsScreen.kt:36-49 | one record per entry, in entry order |
| Settings.ImportRecord | app/src/main/java/com/markrogers/journal/ui/settings/SettingsScreen.kt:76-88 | id 0, `createdAt` from the epoch millis, missing title/body `""`, missing emojis empty, missing sleep 0, rating and toggles copied, not pinned, not a test entry |
| Settings.Imported | app/src/main/java/com/markrogers/journal/ui/settings/SettingsScreen.kt:74-90 | the `k`-th imported entry is the `k`-th record under id `firstId + k` |
| Settings.Import | app/src/main/java/com/markrogers/journal/ui/settings/SettingsScreen.kt:71-90 | a null parse imports nothing; otherwise every record is appended in file order under consecutive fresh ids, keeping the store's id invariant |
| Settings.ExportImportRoundTrip | app/src/main/java/com/markrogers/journal/ui/settings/SettingsScreen.kt:36-89 | export then import gives the entry back with id 0, `createdAt` cut to the millisecond, and not pinned, not a test entry |
| Settings.ImportExportRoundTrip | app/src/main/java/com/markrogers/journal/ui/settings/SettingsScreen.kt:36-89 | a record with every field present survives import then export unchanged |
| Settings.BackupRestore | app/src/main/java/com/markrogers/journal/ui/settings/SettingsScreen.kt:36-90 | restoring a backup appends every entry in order under consecutive new ids, its content kept up to the millisecond in the store model (the database's epoch-second converter is left out) |
| InMemoryRepository.IndexOfId | app/src/main/java/com/markrogers/journal/data/repo/InMemoryRepository.kt:174 | the position of the first entry with the id, none iff no entry has it |
| InMemoryRepository.FirstWithId | app/src/main/java/com/markrogers/journal/data/repo/InMemoryRepository.kt:174 | `firstOrNull { id == id }` is null iff no entry has the id; otherwise an entry of the snapshot with that id |
| InMemoryRepository.Upserted | app/src/main/java/com/markrogers/journal/data/repo/InMemoryRepository.kt:97 | upsert puts the row in the store, replacing in place (same length) or appending |
| InMemoryRepository.UpsertedLookup | app/src/main/java/com/markrogers/journal/data/db/JournalDao.kt:17-18 | after an upsert, looking up the row's id finds the row, and every other id finds what it found before |
| InMemoryRepository.Deleted | app/src/main/java/com/markrogers/journal/data/repo/InMemoryRepository.kt:86-88 | deleting by id leaves only entries of the store without that id and keeps every entry with another id |
| InMemoryRepository.DeletedSubMultiset | app/src/main/java/com/markrogers/journal/data/repo/InMemoryRepository.kt:86-88 | deleting adds no copies: the result is a sub-multiset of the store |
| InMemoryRepository.DeletedConcat | app/src/main/java/com/markrogers/journal/data/repo/InMemoryRepository.kt:86-88 | deleting keeps the order of the remaining entries: it distributes over concatenation |
| InMemoryRepository.EntryStore.Upsert | app/src/main/java/com/markrogers/journal/data/db/JournalDao.kt:17-18 | id 0 receives the next free id; the row then replaces the entry with its id or is appended; ids stay distinct, non-zero and below the counter |
| InMemoryRepository.EntryStore.AddEntry | app/src/main/java/com/markrogers/journal/data/repo/InMemoryRepository.kt:51-79 | appends the editor's entry, created at `now`, under the next id, and bumps the counter past it |
| InMemoryRepository.EntryStore.AddTodo | app/src/main/java/com/markrogers/journal/data/repo/InMemoryRepository.kt:151-170 | appends a titled entry at the start of the date with nothing else set, under the next id, which no entry had, and bumps the counter past it |
| InMemoryRepository.EntryStore.ToggleTodo | app/src/main/java/com/markrogers/journal/data/repo/InMemoryRepository.kt:173-178 | nothing changes when no entry has the id; otherwise that entry, id included, is replaced in place with `toggleX` negated |
| InMemoryRepository.EntryStore.DeleteEntry | app/src/main/java/com/markrogers/journal/data/repo/InMemoryRepository.kt:86-88 | the store becomes `Deleted` of the old entries (every entry with another id kept, in order, none with that id) and the counter is unchanged |
| InMemoryRepository.EntryStore.RestoreEntry | app/src/main/java/com/markrogers/journal/data/repo/InMemoryRepository.kt:95-99 | appends the same content, `createdAt` included (before the database's epoch-second converter, which is left out), under a fresh id |
| InMemoryRepository.DeletedKeepsFresh | app/src/main/java/com/markrogers/journal/data/repo/InMemoryRepository.kt:86-99 | an id unused before a delete stays unused after it |
| InMemoryRepository.RestoreAfterDelete | app/src/main/java/com/markrogers/journal/data/repo/InMemoryRepository.kt:86-99 | undo after delete: the store is the entries without the deleted id plus the same content, `createdAt` included, appended under the new id; the old id stays gone |
| InMemoryRepository.TodosOn | app/src/main/java/com/markrogers/journal/data/repo/InMemoryRepository.kt:136-148 | at most one item per entry; every item is dated `d` and has non-blank text |
| InMemoryRepository.TodosOnIsFilter | app/src/main/java/com/markrogers/journal/data/repo/InMemoryRepository.kt:138-147 | every entry of date `d` with a non-blank title is listed as id, date, title, `toggleX`, and every listed item comes from such an entry |
| InMemoryRepository.TodosOnConcat | app/src/main/java/com/markrogers/journal/data/repo/InMemoryRepository.kt:138-147 | the filter/map keeps the snapshot's order: it distributes over concatenation |
| InMemoryRepository.TodoAddedIsListed | app/src/main/java/com/markrogers/journal/data/repo/InMemoryRepository.kt:136-170 | after adding a todo with non-blank text on a date, that date's todos are the earlier ones plus the new one under its id, not done, counted as a multiset |
| InMemoryRepository.ToggleFlipsDone | app/src/main/java/com/markrogers/journal/data/repo/InMemoryRepository.kt:136-178 | after a toggle, the todo list of any date has the same items with `done` flipped for that id only |
| Preferences.ThemeFromOrdinal | app/src/main/java/com/markrogers/journal/data/prefs/PreferencesRepository.kt:44 | an ordinal in range gives that theme; any other gives SYSTEM |
| Preferences.ProviderFromOrdinal | app/src/main/java/com/markrogers/journal/data/prefs/PreferencesRepository.kt:48 | an ordinal in range gives that provider; any other gives NONE |
| Preferences.Decode | app/src/main/java/com/markrogers/journal/data/prefs/PreferencesRepository.kt:42-57 | fails iff a key holds a value of the wrong type; otherwise five quick emojis, each from its key or its default; missing or out-of-range ordinals give SYSTEM/NONE; missing flag false; missing keys `""` |
| Preferences.EmptyStoreDecodesToDefaults | app/src/main/java/com/markrogers/journal/data/prefs/PreferencesRepository.kt:19-57 | an empty store decodes to the `AppPrefs` defaults |
| Preferences.Clamp | app/src/main/java/com/markrogers/journal/data/prefs/PreferencesRepository.kt:67 | `coerceIn(lo, hi)` is within the bounds and is the input when it already is |
| Preferences.EmojiKeysDistinct | app/src/main/java/com/markrogers/journal/data/prefs/PreferencesRepository.kt:29-39 | the five emoji keys are distinct and differ from every other key |
| Preferences.SetThemeThenDecode | app/src/main/java/com/markrogers/journal/data/prefs/PreferencesRepository.kt:44-59 | setting the theme then reading yields that theme, every other setting unchanged |
| Preferences.SetProviderThenDecode | app/src/main/java/com/markrogers/journal/data/prefs/PreferencesRepository.kt:48-63 | setting the provider then reading yields that provider, every other setting unchanged |
| Preferences.SetFlagAndKeysThenDecode | app/src/main/java/com/markrogers/journal/data/prefs/PreferencesRepository.kt:45-62 | the biometric flag and each API key read back as written, every other setting unchanged |
| Preferences.SetQuickEmojiThenDecode | app/src/main/java/com/markrogers/journal/data/prefs/PreferencesRepository.kt:49-69 | setting a quick emoji changes only the slot the clamped index names |
| Preferences.PreferencesStore.Current | app/src/main/java/com/markrogers/journal/data/prefs/PreferencesRepository.kt:42-57 | a store written only by the setters always decodes |
| Preferences.PreferencesStore.SetTheme | app/src/main/java/com/markrogers/journal/data/prefs/PreferencesRepository.kt:59 | writes the theme ordinal under `theme` and nothing else |
| Preferences.PreferencesStore.SetBiometric | app/src/main/java/com/markrogers/journal/data/prefs/PreferencesRepository.kt:60 | writes the flag under `bio` and nothing else |
| Preferences.PreferencesStore.SetOpenAiKey | app/src/main/java/com/markrogers/journal/data/prefs/PreferencesRepository.kt:61 | writes the key under `openai_key` and nothing else |
| Preferences.PreferencesStore.SetGeminiKey | app/src/main/java/com/markrogers/journal/data/prefs/PreferencesRepository.kt:62 | writes the key under `gemini_key` and nothing else |
| Preferences.PreferencesStore.SetProvider | app/src/main/java/com/markrogers/journal/data/prefs/PreferencesRepository.kt:63 | writes the provider ordinal under `provider` and nothing else |
| Preferences.PreferencesStore.SetQuickEmoji | app/src/main/java/com/markrogers/journal/data/prefs/PreferencesRepository.kt:66-69 | writes the emoji under the key of the slot `index.coerceIn(0, 4)` and nothing else |

## Left out

- Float arithmetic: sleep hours and mood means are exact reals, so Float rounding in `/ 60f`, `* 60` and `average()` is not modelled. `roundToInt` is modelled as rounding half up.
- Time zones: `atZone(ZoneId.systemDefault())` and `atStartOfDay` are the parameters `localDate` and `startOfDay`. The clock (`Instant.now()`, `LocalDate.now()`) is a parameter too (`now`, `today`). The two `LocalDate.now()` calls in the range fallback are taken as one value.
- Integer widths: Kotlin `Int`/`Long` overflow and the year range of `java.time` are not modelled, since every integer is unbounded.
- Concurrency: each repository write runs in a fire-and-forget coroutine. The model applies it at once and in call order. `initialize`, the `StateFlow` snapshot and its refresh from the database are not modelled.
- Database engine: the store is a sequence with `INSERT OR REPLACE` semantics. It holds UI entries directly, so it does not apply the `toEntity`/`toUi` round trip (which `JournalRepository.StorageRoundTrip` covers). It does not apply the `ORDER BY createdAt DESC, id DESC` of the queries either. Nor does it apply the epoch-second type converter the database registers for `createdAt` (`Converters.InstantRoundTrip` states its effect: a stored instant comes back floored to the second), so entries in the store, restored and imported ones included, keep `createdAt` at the precision they were written with.
- InMemoryRepository.TodosOn: lists the todos in store order, not in the snapshot's `ORDER BY createdAt DESC, id DESC` order, so only membership (`TodosOnIsFilter`, `TodoAddedIsListed`) carries over to what the calendar shows; `TodosOnConcat` is about the filter itself.
- `clearAll` and `generateDummy` are not modelled: the first only forwards to the database, and the second generates random data.
- JSON, files and toasts: Gson parsing is a parameter (`parsed`, none for a null result). A parse failure caught by the `try` is not modelled, and neither are the streams or the messages.
- Preferences.Decode: a key holding a value of the wrong type makes the DataStore read throw. Here it decodes to none, and the store class keeps the invariant that it never happens. The DataStore file I/O and its asynchronous `edit` are not modelled.
- The chart drawing, every Compose screen, the biometric prompt and the AI clients are not modelled. They are display, platform or network code.
