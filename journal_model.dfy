/**
 * The app's value types: a journal entry as the UI layer sees it and the
 * todo item derived from it.
 */
module JournalModel {
  import opened Wrappers

  /** An instant on the time line, as nanoseconds since 1970-01-01T00:00:00Z. */
  type Instant = int

  /** A local calendar date, as its day number counted from 1970-01-01 (day 0). */
  type LocalDate = int

  /** No element occurs twice. */
  ghost predicate Distinct<T>(s: seq<T>) {
    forall i, j :: 0 <= i < j < |s| ==> s[i] != s[j]
  }

  const NanosPerMilli: int := 1_000_000
  const NanosPerSecond: int := 1_000_000_000

  /** `Instant.toEpochMilli`: whole milliseconds, rounded towards the past. */
  function ToEpochMilli(i: Instant): (ms: int)
    ensures ms * NanosPerMilli <= i < (ms + 1) * NanosPerMilli
  {
    i / NanosPerMilli
  }

  /** `Instant.ofEpochMilli`. */
  function OfEpochMilli(ms: int): Instant {
    ms * NanosPerMilli
  }

  /**
   * One diary record. `sleepHours == 0` means "not set"; `moodRating` is
   * derived from the primary emoji when the entry is created.
   */
  datatype JournalEntry = JournalEntry(
    id: int,
    createdAt: Instant,
    title: string,
    body: string,
    moodEmojis: seq<string>,
    moodRating: Option<int>,
    toggleX: bool,
    toggleY: bool,
    toggleZ: bool,
    toggleW: bool,
    sleepHours: real,
    isPinned: bool,
    isTest: bool)

  /** A todo is an entry with a non-blank title, shown on its local date. */
  datatype TodoItem = TodoItem(id: int, date: LocalDate, text: string, done: bool)
}
