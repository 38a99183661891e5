/**
 * The repository facade the screens call: it builds the record for each
 * write (new entry, new todo, toggled todo, restored entry) and hands it to
 * the store, and it reads todos off the current snapshot. The store keeps
 * `INSERT OR REPLACE` semantics: an id of 0 receives the next free id, an
 * existing id is replaced in place, any other id is inserted as given.
 */
module InMemoryRepository {
  import opened Wrappers
  import opened JournalModel
  import opened KotlinText

  /** Every entry with id `id` replaced by `e`, or `e` appended when there is none. */
  function Upserted(s: seq<JournalEntry>, e: JournalEntry): (r: seq<JournalEntry>)
    ensures e in r
    ensures |r| == |s| || r == s + [e]
  {
    match IndexOfId(s, e.id)
    case Some(k) =>
      assert s[k := e][k] == e;
      s[k := e]
    case None => s + [e]
  }

  /** The position of the first entry with id `id`. */
  function IndexOfId(s: seq<JournalEntry>, id: int): (r: Option<nat>)
    ensures r.None? <==> forall i :: 0 <= i < |s| ==> s[i].id != id
    ensures r.Some? ==> r.value < |s| && s[r.value].id == id && forall i :: 0 <= i < r.value ==> s[i].id != id
  {
    if s == [] then None
    else if s[0].id == id then Some(0)
    else match IndexOfId(s[1..], id)
      case None => None
      case Some(k) => Some(k + 1)
  }

  /** `firstOrNull { it.id == id }`. */
  function FirstWithId(s: seq<JournalEntry>, id: int): (r: Option<JournalEntry>)
    ensures r.None? <==> forall i :: 0 <= i < |s| ==> s[i].id != id
    ensures r.Some? ==> exists k :: 0 <= k < |s| && s[k] == r.value && r.value.id == id
  {
    match IndexOfId(s, id)
    case Some(k) => Some(s[k])
    case None => None
  }

  /** Entries without id `id` (deleting by primary key). */
  function Deleted(s: seq<JournalEntry>, id: int): (r: seq<JournalEntry>)
    ensures forall i :: 0 <= i < |r| ==> r[i].id != id && r[i] in s
    ensures forall e :: e in s && e.id != id ==> e in r
  {
    if s == [] then []
    else
      var n := |s| - 1;
      var rest := Deleted(s[..n], id);
      assert forall e :: e in s[..n] ==> e in s;
      assert s == s[..n] + [s[n]];
      if s[n].id == id then rest else rest + [s[n]]
  }

  /** Deleting adds no copies: every entry is kept at most as often as it was there. */
  lemma {:induction false} DeletedSubMultiset(s: seq<JournalEntry>, id: int)
    ensures multiset(Deleted(s, id)) <= multiset(s)
  {
    if s != [] {
      var n := |s| - 1;
      DeletedSubMultiset(s[..n], id);
      assert s == s[..n] + [s[n]];
      assert multiset(s) == multiset(s[..n]) + multiset{s[n]};
    }
  }

  /** Deleting keeps the order of the remaining entries: it distributes over concatenation. */
  lemma {:induction false} DeletedConcat(a: seq<JournalEntry>, b: seq<JournalEntry>, id: int)
    ensures Deleted(a + b, id) == Deleted(a, id) + Deleted(b, id)
  {
    if b == [] {
      assert a + b == a;
    } else {
      var n := |b| - 1;
      assert (a + b)[..|a + b| - 1] == a + b[..n];
      DeletedConcat(a, b[..n], id);
    }
  }

  ghost predicate DistinctIds(s: seq<JournalEntry>) {
    forall i, j :: 0 <= i < j < |s| ==> s[i].id != s[j].id
  }

  /** No entry has id `id`. */
  ghost predicate FreshId(s: seq<JournalEntry>, id: int) {
    forall i :: 0 <= i < |s| ==> s[i].id != id
  }

  /** The record `addTodo` writes: a titled entry at the start of the day, not done, nothing else set. */
  function TodoRecord(date: LocalDate, text: string, startOfDay: LocalDate -> Instant): JournalEntry {
    JournalEntry(0, startOfDay(date), text, "", [], None, false, false, false, false, 0.0, false, false)
  }

  /** The record `toggleTodo` writes. */
  function Toggled(e: JournalEntry): JournalEntry {
    e.(toggleX := !e.toggleX)
  }

  /** The record `restoreEntry` writes. */
  function Restored(e: JournalEntry): JournalEntry {
    e.(id := 0)
  }

  /** The store behind the facade: the entries and the next id to hand out. */
  class EntryStore {
    var entries: seq<JournalEntry>
    var nextId: int

    /** Ids are non-zero, pairwise distinct and below `nextId`, which is positive. */
    ghost predicate Valid()
      reads this
    {
      && nextId >= 1
      && DistinctIds(entries)
      && forall i :: 0 <= i < |entries| ==> entries[i].id != 0 && entries[i].id < nextId
    }

    constructor ()
      ensures Valid() && entries == [] && nextId == 1
    {
      entries := [];
      nextId := 1;
    }

    /**
     * `dao.upsert`: an id of 0 is replaced by the next free id; the row is
     * then replaced when its id exists and appended otherwise. Returns the
     * row's id.
     */
    method Upsert(e: JournalEntry) returns (id: int)
      requires Valid()
      modifies this
      ensures Valid()
      ensures id == (if e.id == 0 then old(nextId) else e.id)
      ensures entries == Upserted(old(entries), e.(id := id))
      ensures nextId == if id < old(nextId) then old(nextId) else id + 1
    {
      id := if e.id == 0 then nextId else e.id;
      var row := e.(id := id);
      UpsertedKeepsIds(entries, row, nextId);
      var k := IndexOfId(entries, id);
      if k.Some? {
        entries := entries[k.value := row];
      } else {
        entries := entries + [row];
      }
      if id >= nextId {
        nextId := id + 1;
      }
    }

    /** `addEntry`: the editor's new entry, created at `now`, with a fresh id. */
    method AddEntry(title: string, body: string, moodEmojis: seq<string>, moodRating: Option<int>,
                    toggleX: bool, toggleY: bool, toggleZ: bool, toggleW: bool, sleepHours: real, now: Instant)
      returns (id: int)
      requires Valid()
      modifies this
      ensures Valid()
      ensures id == old(nextId) && nextId == id + 1
      ensures entries == old(entries) + [JournalEntry(id, now, title, body, moodEmojis, moodRating,
                                                      toggleX, toggleY, toggleZ, toggleW, sleepHours, false, false)]
    {
      var e := JournalEntry(0, now, title, body, moodEmojis, moodRating, toggleX, toggleY, toggleZ, toggleW, sleepHours, false, false);
      id := Upsert(e);
    }

    /** `addTodo`: appends the todo record under a fresh id. */
    method AddTodo(date: LocalDate, text: string, startOfDay: LocalDate -> Instant) returns (id: int)
      requires Valid()
      modifies this
      ensures Valid()
      ensures id == old(nextId) && FreshId(old(entries), id) && nextId == id + 1
      ensures entries == old(entries) + [TodoRecord(date, text, startOfDay).(id := id)]
    {
      id := Upsert(TodoRecord(date, text, startOfDay));
    }

    /** `toggleTodo`: nothing when no entry has the id, else that entry with `toggleX` negated, in place. */
    method ToggleTodo(id: int)
      requires Valid()
      modifies this
      ensures Valid()
      ensures FirstWithId(old(entries), id).None? ==> entries == old(entries) && nextId == old(nextId)
      ensures FirstWithId(old(entries), id).Some? ==>
                var k := IndexOfId(old(entries), id).value;
                entries == old(entries)[k := Toggled(old(entries)[k])] && nextId == old(nextId)
    {
      var current := FirstWithId(entries, id);
      if current.None? {
        return;
      }
      var _ := Upsert(Toggled(current.value));
    }

    /** `deleteEntry`: removes the entry with that id, if any. */
    method DeleteEntry(id: int)
      requires Valid()
      modifies this
      ensures Valid()
      ensures entries == Deleted(old(entries), id) && nextId == old(nextId)
    {
      DeletedKeepsIds(entries, id, nextId);
      entries := Deleted(entries, id);
    }

    /** `restoreEntry`: the same content, `createdAt` included, appended under a fresh id. */
    method RestoreEntry(e: JournalEntry) returns (id: int)
      requires Valid()
      modifies this
      ensures Valid()
      ensures id == old(nextId) && FreshId(old(entries), id) && nextId == id + 1
      ensures entries == old(entries) + [e.(id := id)]
    {
      id := Upsert(Restored(e));
    }
  }

  /** Upserting a row with a non-zero id keeps ids distinct and below the bumped counter. */
  lemma UpsertedKeepsIds(s: seq<JournalEntry>, row: JournalEntry, next: int)
    requires DistinctIds(s) && forall i :: 0 <= i < |s| ==> s[i].id != 0 && s[i].id < next
    requires row.id != 0
    ensures DistinctIds(Upserted(s, row))
    ensures var bumped := if row.id < next then next else row.id + 1;
            forall i :: 0 <= i < |Upserted(s, row)| ==> Upserted(s, row)[i].id != 0 && Upserted(s, row)[i].id < bumped
  {
    var r := Upserted(s, row);
    match IndexOfId(s, row.id) {
      case Some(k) =>
        assert r == s[k := row];
        forall i, j | 0 <= i < j < |r| ensures r[i].id != r[j].id {
          if i != k && j != k {
            assert r[i] == s[i] && r[j] == s[j];
          }
        }
      case None =>
        assert r == s + [row];
        forall i, j | 0 <= i < j < |r| ensures r[i].id != r[j].id {
          if j < |s| {
            assert r[i] == s[i] && r[j] == s[j];
          }
        }
    }
  }

  lemma DeletedKeepsIds(s: seq<JournalEntry>, id: int, next: int)
    requires DistinctIds(s) && forall i :: 0 <= i < |s| ==> s[i].id != 0 && s[i].id < next
    ensures DistinctIds(Deleted(s, id))
    ensures forall i :: 0 <= i < |Deleted(s, id)| ==> Deleted(s, id)[i].id != 0 && Deleted(s, id)[i].id < next
  {
    DeletedKeepsDistinct(s, id);
    var r := Deleted(s, id);
    forall i | 0 <= i < |r| ensures r[i].id != 0 && r[i].id < next {
      assert r[i] in s;
    }
  }

  lemma {:induction false} DeletedKeepsDistinct(s: seq<JournalEntry>, id: int)
    requires DistinctIds(s)
    ensures DistinctIds(Deleted(s, id))
  {
    if s != [] {
      var n := |s| - 1;
      var p := s[..n];
      assert DistinctIds(p);
      DeletedKeepsDistinct(p, id);
      var rest := Deleted(p, id);
      if s[n].id != id {
        forall i | 0 <= i < |rest| ensures rest[i].id != s[n].id {
          assert rest[i] in p;
          var j :| 0 <= j < n && p[j] == rest[i];
          assert p[j] == s[j];
        }
        var r := rest + [s[n]];
        assert Deleted(s, id) == r;
        forall i, j | 0 <= i < j < |r| ensures r[i].id != r[j].id {
          assert r[i] == rest[i];
          if j < |rest| { assert r[j] == rest[j]; }
        }
      } else {
        assert Deleted(s, id) == rest;
      }
    }
  }

  /**
   * Upserting acts on lookup by id as a map update: the written row is found
   * under its id and every other id finds what it found before.
   */
  lemma UpsertedLookup(s: seq<JournalEntry>, e: JournalEntry, other: int)
    requires DistinctIds(s)
    ensures FirstWithId(Upserted(s, e), e.id) == Some(e)
    ensures other != e.id ==> FirstWithId(Upserted(s, e), other) == FirstWithId(s, other)
  {
    var r := Upserted(s, e);
    match IndexOfId(s, e.id) {
      case Some(k) =>
        assert r[k] == e;
        IndexOfIdUnique(r, k, e.id);
        if other != e.id {
          match IndexOfId(s, other) {
            case Some(j) =>
              IndexOfIdUnique(r, j, other);
            case None =>
          }
        }
      case None =>
        IndexOfIdUnique(r, |s|, e.id);
        if other != e.id {
          match IndexOfId(s, other) {
            case Some(j) =>
              assert r[j] == s[j];
              IndexOfIdUnique(r, j, other);
            case None =>
          }
        }
    }
  }

  /** When only entry `k` has id `id`, the search stops at `k`. */
  lemma IndexOfIdUnique(s: seq<JournalEntry>, k: int, id: int)
    requires 0 <= k < |s| && s[k].id == id
    requires forall i :: 0 <= i < |s| && i != k ==> s[i].id != id
    ensures IndexOfId(s, id) == Some(k)
  {
  }

  /** An entry counts as a todo of day `d` when dated `d` and titled. */
  predicate IsTodoOn(e: JournalEntry, d: LocalDate, localDate: Instant -> LocalDate) {
    localDate(e.createdAt) == d && !IsBlank(e.title)
  }

  function AsTodo(e: JournalEntry, d: LocalDate): TodoItem {
    TodoItem(e.id, d, e.title, e.toggleX)
  }

  /**
   * `todosOn(d)`: the titled entries of day `d`, in snapshot order, each as
   * a todo carrying the entry's id and title, done when `toggleX` is set.
   */
  function TodosOn(s: seq<JournalEntry>, d: LocalDate, localDate: Instant -> LocalDate): (r: seq<TodoItem>)
    ensures |r| <= |s|
    ensures forall k :: 0 <= k < |r| ==> r[k].date == d && !IsBlank(r[k].text)
  {
    if s == [] then []
    else
      var n := |s| - 1;
      TodosOn(s[..n], d, localDate) + (if IsTodoOn(s[n], d, localDate) then [AsTodo(s[n], d)] else [])
  }

  /**
   * `todosOn` is exactly a filter and a map: every todo entry of the day is
   * listed, and every listed item comes from a todo entry of the day.
   */
  lemma {:induction false} TodosOnIsFilter(s: seq<JournalEntry>, d: LocalDate, localDate: Instant -> LocalDate)
    ensures forall e :: e in s && IsTodoOn(e, d, localDate) ==> AsTodo(e, d) in TodosOn(s, d, localDate)
    ensures forall k :: 0 <= k < |TodosOn(s, d, localDate)| ==>
              exists i :: 0 <= i < |s| && IsTodoOn(s[i], d, localDate) && TodosOn(s, d, localDate)[k] == AsTodo(s[i], d)
  {
    if s != [] {
      var n := |s| - 1;
      var p := s[..n];
      TodosOnIsFilter(p, d, localDate);
      var rest := TodosOn(p, d, localDate);
      var r := TodosOn(s, d, localDate);
      assert r == rest + (if IsTodoOn(s[n], d, localDate) then [AsTodo(s[n], d)] else []);
      assert s == p + [s[n]];
      forall k | 0 <= k < |r|
        ensures exists i :: 0 <= i < |s| && IsTodoOn(s[i], d, localDate) && r[k] == AsTodo(s[i], d)
      {
        if k < |rest| {
          assert r[k] == rest[k];
          var i :| 0 <= i < |p| && IsTodoOn(p[i], d, localDate) && rest[k] == AsTodo(p[i], d);
          assert s[i] == p[i];
        } else {
          assert r[k] == AsTodo(s[n], d);
        }
      }
      forall e | e in s && IsTodoOn(e, d, localDate)
        ensures AsTodo(e, d) in r
      {
        if e in p {
          assert AsTodo(e, d) in rest;
        } else {
          assert e == s[n];
        }
      }
    } else {
      assert TodosOn(s, d, localDate) == [];
    }
  }

  /** Snapshot order is kept: the todos of a concatenation are the concatenated todos. */
  lemma {:induction false} TodosOnConcat(a: seq<JournalEntry>, b: seq<JournalEntry>, d: LocalDate, localDate: Instant -> LocalDate)
    ensures TodosOn(a + b, d, localDate) == TodosOn(a, d, localDate) + TodosOn(b, d, localDate)
  {
    if b == [] {
      assert a + b == a;
    } else {
      var n := |b| - 1;
      assert (a + b)[..|a + b| - 1] == a + b[..n];
      TodosOnConcat(a, b[..n], d, localDate);
    }
  }

  /**
   * A todo added on a day whose start lies on that day, with a titled text,
   * is listed on that day under its new id, not done, beside the todos that
   * were listed before, whatever order the snapshot is in.
   */
  lemma TodoAddedIsListed(s: seq<JournalEntry>, date: LocalDate, text: string, id: int,
                          startOfDay: LocalDate -> Instant, localDate: Instant -> LocalDate)
    requires localDate(startOfDay(date)) == date && !IsBlank(text)
    ensures multiset(TodosOn(s + [TodoRecord(date, text, startOfDay).(id := id)], date, localDate))
            == multiset(TodosOn(s, date, localDate)) + multiset{TodoItem(id, date, text, false)}
  {
    var e := TodoRecord(date, text, startOfDay).(id := id);
    TodosOnConcat(s, [e], date, localDate);
    assert TodosOn([e], date, localDate) == TodosOn([e][..0], date, localDate) + [AsTodo(e, date)];
  }

  /** Replacing one entry by one with the same day and title changes only its own todo. */
  lemma TodosOnReplace(s: seq<JournalEntry>, k: int, e: JournalEntry, d: LocalDate, localDate: Instant -> LocalDate)
    requires 0 <= k < |s|
    requires e.createdAt == s[k].createdAt && e.title == s[k].title
    ensures TodosOn(s, d, localDate) == TodosOn(s[..k], d, localDate) + TodosOn([s[k]], d, localDate) + TodosOn(s[k + 1..], d, localDate)
    ensures TodosOn(s[k := e], d, localDate) == TodosOn(s[..k], d, localDate) + TodosOn([e], d, localDate) + TodosOn(s[k + 1..], d, localDate)
  {
    assert s == s[..k] + [s[k]] + s[k + 1..];
    assert s[k := e] == s[..k] + [e] + s[k + 1..];
    TodosOnConcat(s[..k] + [s[k]], s[k + 1..], d, localDate);
    TodosOnConcat(s[..k], [s[k]], d, localDate);
    TodosOnConcat(s[..k] + [e], s[k + 1..], d, localDate);
    TodosOnConcat(s[..k], [e], d, localDate);
  }

  /** A snapshot without id `id` lists no todo with that id. */
  lemma TodosOnAvoidsId(s: seq<JournalEntry>, id: int, d: LocalDate, localDate: Instant -> LocalDate)
    requires FreshId(s, id)
    ensures forall j :: 0 <= j < |TodosOn(s, d, localDate)| ==> TodosOn(s, d, localDate)[j].id != id
  {
    var r := TodosOn(s, d, localDate);
    TodosOnIsFilter(s, d, localDate);
    forall j | 0 <= j < |r| ensures r[j].id != id {
      assert exists i :: 0 <= i < |s| && IsTodoOn(s[i], d, localDate) && r[j] == AsTodo(s[i], d);
      var i :| 0 <= i < |s| && IsTodoOn(s[i], d, localDate) && r[j] == AsTodo(s[i], d);
    }
  }

  lemma TodosOnSingle(e: JournalEntry, d: LocalDate, localDate: Instant -> LocalDate)
    ensures TodosOn([e], d, localDate) == if IsTodoOn(e, d, localDate) then [AsTodo(e, d)] else []
  {
    assert [e][..0] == [];
  }

  /**
   * Toggling a todo flips `done` on that todo and on no other, keeping the
   * list's length and order (ids are distinct in the store).
   */
  lemma ToggleFlipsDone(s: seq<JournalEntry>, id: int, d: LocalDate, localDate: Instant -> LocalDate)
    requires DistinctIds(s) && FirstWithId(s, id).Some?
    ensures var k := IndexOfId(s, id).value;
            var before := TodosOn(s, d, localDate);
            var after := TodosOn(s[k := Toggled(s[k])], d, localDate);
            && |after| == |before|
            && forall j :: 0 <= j < |before| ==>
                 after[j] == if before[j].id == id then before[j].(done := !before[j].done) else before[j]
  {
    var k := IndexOfId(s, id).value;
    var t := Toggled(s[k]);
    TodosOnReplace(s, k, t, d, localDate);
    assert FreshId(s[..k], id);
    var tail := s[k + 1..];
    assert FreshId(tail, id) by {
      forall i | 0 <= i < |tail| ensures tail[i].id != id {
        assert tail[i] == s[k + 1 + i];
      }
    }
    TodosOnAvoidsId(s[..k], id, d, localDate);
    TodosOnAvoidsId(tail, id, d, localDate);
    TodosOnSingle(s[k], d, localDate);
    TodosOnSingle(t, d, localDate);
    var pre := TodosOn(s[..k], d, localDate);
    var post := TodosOn(tail, d, localDate);
    var mid := TodosOn([s[k]], d, localDate);
    var mid' := TodosOn([t], d, localDate);
    assert IsTodoOn(t, d, localDate) == IsTodoOn(s[k], d, localDate);
    FlipOne(pre, mid, mid', post, id);
  }

  /** Only the middle part carries `id`, and it changes by flipping `done`. */
  lemma FlipOne(pre: seq<TodoItem>, mid: seq<TodoItem>, mid': seq<TodoItem>, post: seq<TodoItem>, id: int)
    requires forall j :: 0 <= j < |pre| ==> pre[j].id != id
    requires forall j :: 0 <= j < |post| ==> post[j].id != id
    requires |mid| == |mid'| <= 1
    requires |mid| == 1 ==> mid[0].id == id && mid'[0] == mid[0].(done := !mid[0].done)
    ensures var before := pre + mid + post;
            var after := pre + mid' + post;
            && |after| == |before|
            && forall j :: 0 <= j < |before| ==>
                 after[j] == if before[j].id == id then before[j].(done := !before[j].done) else before[j]
  {
    var before := pre + mid + post;
    var after := pre + mid' + post;
    forall j | 0 <= j < |before|
      ensures after[j] == if before[j].id == id then before[j].(done := !before[j].done) else before[j]
    {
      if j < |pre| {
        assert before[j] == pre[j] && after[j] == pre[j];
      } else if j < |pre| + |mid| {
        assert before[j] == mid[0] && after[j] == mid'[0];
      } else {
        assert before[j] == post[j - |pre| - |mid|] && after[j] == post[j - |pre| - |mid|];
      }
    }
  }

  /**
   * Undo after a delete: the restored entry comes back with all its content,
   * `createdAt` included, under a fresh id, and the old id stays gone.
   */
  lemma RestoreAfterDelete(s: seq<JournalEntry>, e: JournalEntry, newId: int)
    requires newId != 0 && FreshId(s, newId)
    ensures var r := Upserted(Deleted(s, e.id), Restored(e).(id := newId));
            && r == Deleted(s, e.id) + [e.(id := newId)]
            && (newId != e.id ==> forall i :: 0 <= i < |r| - 1 ==> r[i].id != e.id)
  {
    var rest := Deleted(s, e.id);
    DeletedKeepsFresh(s, e.id, newId);
    assert IndexOfId(rest, newId).None?;
    assert Restored(e).(id := newId) == e.(id := newId);
  }

  /** Deleting keeps an id that no entry has free. */
  lemma {:induction false} DeletedKeepsFresh(s: seq<JournalEntry>, id: int, x: int)
    requires FreshId(s, x)
    ensures FreshId(Deleted(s, id), x)
  {
    if s != [] {
      var n := |s| - 1;
      assert FreshId(s[..n], x) by {
        forall i | 0 <= i < n ensures s[..n][i].id != x {
          assert s[..n][i] == s[i];
        }
      }
      DeletedKeepsFresh(s[..n], id, x);
    }
  }
}
