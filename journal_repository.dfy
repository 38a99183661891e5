/**
 * The mapping between the UI entry and the stored row: mood emojis as one
 * comma-separated text column, sleep as whole minutes (null when unset).
 */
module JournalRepository {
  import opened Wrappers
  import opened JournalModel
  import opened KotlinText

  /** The stored row of the `entries` table. */
  datatype EntryEntity = EntryEntity(
    id: int,
    createdAt: Instant,
    title: string,
    body: string,
    moodRating: Option<int>,
    moodEmojisCsv: string,
    toggleX: bool,
    toggleY: bool,
    toggleZ: bool,
    toggleW: bool,
    sleepMinutes: Option<int>)

  /** `joinToString(",")`. */
  function ToCsv(list: seq<string>): string {
    Join(list, ',')
  }

  function TrimAll(parts: seq<string>): (r: seq<string>)
    ensures |r| == |parts|
    ensures forall k :: 0 <= k < |r| ==> r[k] == Trim(parts[k])
  {
    if parts == [] then [] else [Trim(parts[0])] + TrimAll(parts[1..])
  }

  /**
   * A blank column is the empty list; otherwise every comma separates two
   * pieces, each trimmed (so empty pieces survive).
   */
  function FromCsv(s: string): (r: seq<string>)
    ensures IsBlank(s) ==> r == []
    ensures !IsBlank(s) ==> |r| == CountChar(s, ',') + 1
    ensures forall k :: 0 <= k < |r| ==> IsTrimmed(r[k]) && ',' !in r[k]
    ensures !IsBlank(s) ==> forall k :: 0 <= k < |r| ==> r[k] == Trim(Split(s, ',')[k])
  {
    if IsBlank(s) then []
    else
      var parts := Split(s, ',');
      var r := TrimAll(parts);
      forall k | 0 <= k < |r| ensures ',' !in r[k] {
        TrimKeepsOut(parts[k], ',');
      }
      r
  }

  /** Trimming cannot bring in a character the string lacks. */
  lemma TrimKeepsOut(t: string, c: char)
    requires c !in t
    ensures c !in Trim(t)
  {
    var i, j :| 0 <= i <= j <= |t| && Trim(t) == t[i..j] && IsBlank(t[..i]) && IsBlank(t[j..]);
    assert forall x :: x in t[i..j] ==> x in t;
  }

  /**
   * Whatever way a non-blank column is cut at its commas into comma-free
   * segments, reading it gives those segments trimmed, in order.
   */
  lemma FromCsvSegments(s: string, segments: seq<string>)
    requires !IsBlank(s) && segments != [] && Join(segments, ',') == s
    requires forall k :: 0 <= k < |segments| ==> ',' !in segments[k]
    ensures |FromCsv(s)| == |segments|
    ensures forall k :: 0 <= k < |segments| ==> FromCsv(s)[k] == Trim(segments[k])
  {
    SplitJoin(segments, ',');
  }

  /** An emoji list survives the CSV column when no element is empty, holds a comma or has surrounding whitespace. */
  predicate CsvSafe(list: seq<string>) {
    forall k :: 0 <= k < |list| ==> list[k] != [] && ',' !in list[k] && IsTrimmed(list[k])
  }

  lemma CsvRoundTrip(list: seq<string>)
    requires CsvSafe(list)
    ensures FromCsv(ToCsv(list)) == list
  {
    if list != [] {
      SplitJoin(list, ',');
      var csv := ToCsv(list);
      assert csv[0] == list[0][0] by { JoinStartsWithFirst(list, ','); }
      assert !IsBlank(csv);
      assert TrimAll(list) == list;
    }
  }

  lemma {:induction false} JoinStartsWithFirst(parts: seq<string>, sep: char)
    requires parts != [] && parts[0] != []
    ensures |Join(parts, sep)| > 0 && Join(parts, sep)[0] == parts[0][0]
  {
  }

  /** Kotlin's `Float.roundToInt()`: to the nearest integer, halves up. */
  function RoundToInt(x: real): (n: int)
    ensures x - 0.5 < n as real <= x + 0.5
  {
    (x + 0.5).Floor
  }

  /** `EntryEntity.toUi()`: a null minute count reads as sleep 0. */
  function ToUi(row: EntryEntity): JournalEntry {
    JournalEntry(
      id := row.id,
      createdAt := row.createdAt,
      title := row.title,
      body := row.body,
      moodEmojis := FromCsv(row.moodEmojisCsv),
      moodRating := row.moodRating,
      toggleX := row.toggleX,
      toggleY := row.toggleY,
      toggleZ := row.toggleZ,
      toggleW := row.toggleW,
      sleepHours := match row.sleepMinutes case Some(m) => m as real / 60.0 case None => 0.0,
      isPinned := false,
      isTest := false)
  }

  /** `JournalEntry.toEntity()`: sleep that is not positive is stored as null. */
  function ToEntity(e: JournalEntry): EntryEntity {
    EntryEntity(
      id := e.id,
      createdAt := e.createdAt,
      title := e.title,
      body := e.body,
      moodRating := e.moodRating,
      moodEmojisCsv := ToCsv(e.moodEmojis),
      toggleX := e.toggleX,
      toggleY := e.toggleY,
      toggleZ := e.toggleZ,
      toggleW := e.toggleW,
      sleepMinutes := if e.sleepHours > 0.0 then Some(RoundToInt(e.sleepHours * 60.0)) else None)
  }

  /** The sleep value that reading back a stored entry yields. */
  function StoredSleep(hours: real): real {
    if hours > 0.0 then RoundToInt(hours * 60.0) as real / 60.0 else 0.0
  }

  /**
   * Writing an entry and reading it back keeps every field except three:
   * sleep is rounded to the minute (and unset when not positive), and the
   * pinned and test flags, which have no column, come back false.
   */
  lemma StorageRoundTrip(e: JournalEntry)
    requires CsvSafe(e.moodEmojis)
    ensures ToUi(ToEntity(e)) == e.(sleepHours := StoredSleep(e.sleepHours), isPinned := false, isTest := false)
    ensures ToEntity(e).sleepMinutes.None? <==> e.sleepHours <= 0.0
    ensures ToUi(ToEntity(e)).sleepHours >= 0.0
  {
    CsvRoundTrip(e.moodEmojis);
    StoredSleepField(e);
    var back := ToUi(ToEntity(e));
    assert back.moodEmojis == e.moodEmojis;
  }

  /** The sleep read back is the stored sleep, never negative. */
  lemma StoredSleepField(e: JournalEntry)
    ensures ToUi(ToEntity(e)).sleepHours == StoredSleep(e.sleepHours) >= 0.0
    ensures ToEntity(e).sleepMinutes.None? <==> e.sleepHours <= 0.0
  {
    if e.sleepHours > 0.0 {
      var n := RoundToInt(e.sleepHours * 60.0);
      assert n >= 0;
      assert ToEntity(e).sleepMinutes == Some(n);
      assert ToUi(ToEntity(e)).sleepHours == n as real / 60.0;
    } else {
      assert ToEntity(e).sleepMinutes == None;
    }
  }

  /** Positive sleep is kept to within half a minute. */
  lemma StoredSleepPrecision(hours: real)
    requires hours > 0.0
    ensures hours - 1.0 / 120.0 < StoredSleep(hours) <= hours + 1.0 / 120.0
  {
  }

  /** A whole positive number of minutes survives the conversion to hours and back. */
  lemma MinutesRoundTrip(m: int)
    requires m > 0
    ensures m as real / 60.0 > 0.0
    ensures RoundToInt(m as real / 60.0 * 60.0) == m
  {
    assert m as real / 60.0 * 60.0 == m as real;
  }

  /**
   * Reading a row and writing it back gives the same row when its minute
   * count is null or positive and its CSV is in the form `ToCsv` writes.
   */
  lemma RowRoundTrip(row: EntryEntity)
    requires row.sleepMinutes.None? || row.sleepMinutes.value > 0
    requires row.moodEmojisCsv == ToCsv(FromCsv(row.moodEmojisCsv))
    ensures ToEntity(ToUi(row)) == row
  {
    var e := ToUi(row);
    var back := ToEntity(e);
    assert back.moodEmojisCsv == row.moodEmojisCsv;
    if row.sleepMinutes.Some? {
      MinutesRoundTrip(row.sleepMinutes.value);
    }
    assert back.sleepMinutes == row.sleepMinutes;
  }
}
