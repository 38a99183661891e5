/**
 * Backup and restore from the settings screen: every entry becomes a JSON
 * record with `createdAt` in epoch milliseconds, and every record read back
 * is restored as a new entry, missing fields taking their defaults.
 */
module Settings {
  import opened Wrappers
  import opened JournalModel
  import opened InMemoryRepository

  /**
   * The JSON record. A field absent from the file reads as null, except
   * `createdAt` (read as 0) and the toggles (read as false).
   */
  datatype EntryJson = EntryJson(
    createdAt: int,
    title: Option<string>,
    body: Option<string>,
    moodEmojis: Option<seq<string>>,
    moodRating: Option<int>,
    toggleX: bool,
    toggleY: bool,
    toggleZ: bool,
    toggleW: bool,
    sleepHours: Option<real>)

  /** The record exported for one entry. */
  function ExportRecord(e: JournalEntry): EntryJson {
    EntryJson(ToEpochMilli(e.createdAt), Some(e.title), Some(e.body), Some(e.moodEmojis), e.moodRating,
              e.toggleX, e.toggleY, e.toggleZ, e.toggleW, Some(e.sleepHours))
  }

  /** The export payload: one record per entry, in entry order. */
  function Export(entries: seq<JournalEntry>): (r: seq<EntryJson>)
    ensures |r| == |entries|
    ensures forall k :: 0 <= k < |r| ==> r[k] == ExportRecord(entries[k])
  {
    seq(|entries|, k requires 0 <= k < |entries| => ExportRecord(entries[k]))
  }

  /**
   * The entry restored from one record: id 0 so the store assigns a new
   * one, `createdAt` from the epoch milliseconds, missing title and body
   * empty, missing moods none, missing sleep 0, pinned and test flags off.
   */
  function ImportRecord(d: EntryJson): (e: JournalEntry)
    ensures e.id == 0 && e.createdAt == OfEpochMilli(d.createdAt)
    ensures e.title == d.title.GetOr("") && e.body == d.body.GetOr("")
    ensures e.moodEmojis == d.moodEmojis.GetOr([]) && e.sleepHours == d.sleepHours.GetOr(0.0)
    ensures e.moodRating == d.moodRating && !e.isPinned && !e.isTest
    ensures e.toggleX == d.toggleX && e.toggleY == d.toggleY && e.toggleZ == d.toggleZ && e.toggleW == d.toggleW
  {
    JournalEntry(0, OfEpochMilli(d.createdAt), d.title.GetOr(""), d.body.GetOr(""), d.moodEmojis.GetOr([]),
                 d.moodRating, d.toggleX, d.toggleY, d.toggleZ, d.toggleW, d.sleepHours.GetOr(0.0), false, false)
  }

  /** The entries that importing `records` appends to a store whose next id is `firstId`. */
  function Imported(records: seq<EntryJson>, firstId: int): (r: seq<JournalEntry>)
    ensures |r| == |records|
    ensures forall k :: 0 <= k < |r| ==> r[k] == ImportRecord(records[k]).(id := firstId + k)
  {
    if records == [] then []
    else
      var n := |records| - 1;
      Imported(records[..n], firstId) + [ImportRecord(records[n]).(id := firstId + n)]
  }

  /**
   * The import loop: a file that does not parse imports nothing; otherwise
   * each record is restored in file order, each under the next fresh id.
   * Returns the number of records imported.
   */
  method Import(store: EntryStore, parsed: Option<seq<EntryJson>>) returns (count: nat)
    requires store.Valid()
    modifies store
    ensures store.Valid()
    ensures count == |parsed.GetOr([])|
    ensures store.entries == old(store.entries) + Imported(parsed.GetOr([]), old(store.nextId))
    ensures store.nextId == old(store.nextId) + count
  {
    var list := parsed.GetOr([]);
    var i := 0;
    while i < |list|
      invariant 0 <= i <= |list|
      invariant store.Valid()
      invariant store.nextId == old(store.nextId) + i
      invariant store.entries == old(store.entries) + Imported(list[..i], old(store.nextId))
    {
      var _ := store.RestoreEntry(ImportRecord(list[i]));
      assert list[..i + 1][..i] == list[..i];
      i := i + 1;
    }
    assert list[..i] == list;
    count := |list|;
  }

  /**
   * Exporting an entry and importing the record gives the entry back except
   * for the id (0, to be assigned), `createdAt` (cut to the millisecond) and
   * the pinned and test flags (off).
   */
  lemma ExportImportRoundTrip(e: JournalEntry)
    ensures ImportRecord(ExportRecord(e))
            == e.(id := 0, createdAt := OfEpochMilli(ToEpochMilli(e.createdAt)), isPinned := false, isTest := false)
    ensures e.createdAt - NanosPerMilli < ImportRecord(ExportRecord(e)).createdAt <= e.createdAt
  {
  }

  /** A record with every field present survives import and export unchanged. */
  lemma ImportExportRoundTrip(d: EntryJson)
    requires d.title.Some? && d.body.Some? && d.moodEmojis.Some? && d.sleepHours.Some?
    ensures ExportRecord(ImportRecord(d)) == d
  {
    MilliRoundTrip(d.createdAt);
  }

  lemma MilliRoundTrip(ms: int)
    ensures ToEpochMilli(OfEpochMilli(ms)) == ms
  {
  }

  /**
   * Backing up a store and restoring the file into a store whose next id is
   * `firstId` appends every entry, in order, under consecutive new ids, with
   * its content kept up to the millisecond.
   */
  lemma BackupRestore(entries: seq<JournalEntry>, firstId: int)
    ensures |Imported(Export(entries), firstId)| == |entries|
    ensures forall k :: 0 <= k < |entries| ==>
              Imported(Export(entries), firstId)[k]
              == entries[k].(id := firstId + k, createdAt := OfEpochMilli(ToEpochMilli(entries[k].createdAt)),
                             isPinned := false, isTest := false)
  {
    forall k | 0 <= k < |entries|
      ensures Imported(Export(entries), firstId)[k]
              == entries[k].(id := firstId + k, createdAt := OfEpochMilli(ToEpochMilli(entries[k].createdAt)),
                             isPinned := false, isTest := false)
    {
      ExportImportRoundTrip(entries[k]);
    }
  }
}
