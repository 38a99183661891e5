/**
 * "Latest non-zero sleep": sort a day's entries by `createdAt` (a stable
 * sort), take their sleep values, drop those that are not positive and keep
 * the last. Used by the metrics aggregation and by the editor's prefill.
 */
module EntryOrder {
  import opened Wrappers
  import opened JournalModel

  ghost predicate SortedByCreatedAt(s: seq<JournalEntry>) {
    forall i, j :: 0 <= i < j < |s| ==> s[i].createdAt <= s[j].createdAt
  }

  /** Inserts `x` after every element that is not later than `x`. */
  function InsertByCreatedAt(s: seq<JournalEntry>, x: JournalEntry): (r: seq<JournalEntry>)
    ensures multiset(r) == multiset(s) + multiset{x}
    ensures |r| == |s| + 1 && (r[0] == x || (s != [] && r[0] == s[0]))
  {
    if s == [] then [x]
    else if x.createdAt < s[0].createdAt then [x] + s
    else
      var rest := InsertByCreatedAt(s[1..], x);
      assert s == [s[0]] + s[1..];
      [s[0]] + rest
  }

  /** Inserting into a sorted list keeps it sorted. */
  lemma {:induction false} InsertKeepsSorted(s: seq<JournalEntry>, x: JournalEntry)
    requires SortedByCreatedAt(s)
    ensures SortedByCreatedAt(InsertByCreatedAt(s, x))
  {
    if s == [] {
    } else if x.createdAt < s[0].createdAt {
      PrependSorted(x, s);
    } else {
      var tail := s[1..];
      assert SortedByCreatedAt(tail);
      InsertKeepsSorted(tail, x);
      var rest := InsertByCreatedAt(tail, x);
      assert tail != [] ==> s[0].createdAt <= tail[0].createdAt;
      PrependSorted(s[0], rest);
    }
  }

  lemma PrependSorted(a: JournalEntry, t: seq<JournalEntry>)
    requires SortedByCreatedAt(t) && (t == [] || a.createdAt <= t[0].createdAt)
    ensures SortedByCreatedAt([a] + t)
  {
    var r := [a] + t;
    forall i, j | 0 <= i < j < |r| ensures r[i].createdAt <= r[j].createdAt {
      if i > 0 {
        assert r[i] == t[i - 1] && r[j] == t[j - 1];
      } else {
        assert t[0].createdAt <= t[j - 1].createdAt;
      }
    }
  }

  /**
   * Kotlin's `sortedBy { it.createdAt }`: a stable sort, modelled as an
   * insertion sort that inserts each element after its equals.
   */
  function SortByCreatedAt(s: seq<JournalEntry>): (r: seq<JournalEntry>)
    ensures multiset(r) == multiset(s)
    ensures SortedByCreatedAt(r)
  {
    if s == [] then []
    else
      var n := |s| - 1;
      assert s == s[..n] + [s[n]];
      var sorted := SortByCreatedAt(s[..n]);
      InsertKeepsSorted(sorted, s[n]);
      InsertByCreatedAt(sorted, s[n])
  }

  /** `.map { it.sleepHours }`. */
  function SleepsOf(s: seq<JournalEntry>): (r: seq<real>)
    ensures |r| == |s| && forall k :: 0 <= k < |s| ==> r[k] == s[k].sleepHours
  {
    if s == [] then [] else [s[0].sleepHours] + SleepsOf(s[1..])
  }

  /** `.filter { it > 0f }.lastOrNull()`. */
  function LastPositiveValue(v: seq<real>): Option<real> {
    if v == [] then None
    else if v[|v| - 1] > 0.0 then Some(v[|v| - 1])
    else LastPositiveValue(v[..|v| - 1])
  }

  /** The latest non-zero sleep of `s`, or null when no entry has sleep set. */
  function LatestPositiveSleep(s: seq<JournalEntry>): Option<real> {
    LastPositiveValue(SleepsOf(SortByCreatedAt(s)))
  }

  /** The last entry of `s` with positive sleep. */
  function LastPositive(s: seq<JournalEntry>): (r: Option<JournalEntry>)
    ensures r.Some? ==> r.value in s && r.value.sleepHours > 0.0
  {
    if s == [] then None
    else if s[|s| - 1].sleepHours > 0.0 then Some(s[|s| - 1])
    else LastPositive(s[..|s| - 1])
  }

  /**
   * One step of the reference definition: `x` takes over from the current
   * candidate when its sleep is set and it is not earlier.
   */
  function Step(c: Option<JournalEntry>, x: JournalEntry): Option<JournalEntry> {
    if x.sleepHours > 0.0 && (c.None? || c.value.createdAt <= x.createdAt) then Some(x) else c
  }

  /**
   * Reference definition, independent of any sorting: scan the entries in
   * input order keeping the latest entry with sleep set, later ones winning
   * ties.
   */
  function Latest(s: seq<JournalEntry>): Option<JournalEntry> {
    if s == [] then None else Step(Latest(s[..|s| - 1]), s[|s| - 1])
  }

  /** No entry of `s` has sleep set. */
  ghost predicate NoSleepSet(s: seq<JournalEntry>) {
    forall j :: 0 <= j < |s| ==> s[j].sleepHours <= 0.0
  }

  /**
   * Entry `i` has sleep set and every other entry with sleep set is earlier,
   * or equally early and before it in the input.
   */
  ghost predicate IsLatestPositive(s: seq<JournalEntry>, i: int) {
    && 0 <= i < |s|
    && s[i].sleepHours > 0.0
    && forall j :: 0 <= j < |s| && s[j].sleepHours > 0.0 ==>
         s[j].createdAt < s[i].createdAt || (s[j].createdAt == s[i].createdAt && j <= i)
  }

  lemma {:induction false} LastPositiveValueOfSleeps(s: seq<JournalEntry>)
    ensures LastPositiveValue(SleepsOf(s)) == match LastPositive(s) case None => None case Some(e) => Some(e.sleepHours)
  {
    if s != [] {
      LastPositiveValueOfSleeps(s[..|s| - 1]);
      assert SleepsOf(s)[..|s| - 1] == SleepsOf(s[..|s| - 1]);
    }
  }

  lemma {:induction false} LastPositiveConcat(a: seq<JournalEntry>, b: seq<JournalEntry>)
    ensures LastPositive(a + b) == if LastPositive(b).Some? then LastPositive(b) else LastPositive(a)
  {
    if b != [] {
      assert (a + b)[..|a + b| - 1] == a + b[..|b| - 1];
      LastPositiveConcat(a, b[..|b| - 1]);
    } else {
      assert a + b == a;
    }
  }

  /** Inserting into a sorted sequence acts on its last positive entry as one reference step. */
  lemma {:induction false} InsertLastPositive(t: seq<JournalEntry>, x: JournalEntry)
    requires SortedByCreatedAt(t)
    ensures LastPositive(InsertByCreatedAt(t, x)) == Step(LastPositive(t), x)
  {
    if t == [] {
      assert LastPositive([x]) == if x.sleepHours > 0.0 then Some(x) else LastPositive([x][..0]);
    } else if x.createdAt < t[0].createdAt {
      LastPositiveConcat([x], t);
      assert LastPositive([x]) == if x.sleepHours > 0.0 then Some(x) else LastPositive([x][..0]);
      if LastPositive(t).Some? {
        var e := LastPositive(t).value;
        var k :| 0 <= k < |t| && t[k] == e;
        assert t[0].createdAt <= e.createdAt;
      }
    } else {
      var rest := InsertByCreatedAt(t[1..], x);
      InsertLastPositive(t[1..], x);
      LastPositiveConcat([t[0]], rest);
      LastPositiveConcat([t[0]], t[1..]);
      assert [t[0]] + t[1..] == t;
      assert LastPositive([t[0]]) == if t[0].sleepHours > 0.0 then Some(t[0]) else LastPositive([t[0]][..0]);
    }
  }

  /** Sorting stably and taking the last positive entry agrees with the reference scan. */
  lemma {:induction false} SortedLastPositiveIsLatest(s: seq<JournalEntry>)
    ensures LastPositive(SortByCreatedAt(s)) == Latest(s)
  {
    if s != [] {
      SortedLastPositiveIsLatest(s[..|s| - 1]);
      InsertLastPositive(SortByCreatedAt(s[..|s| - 1]), s[|s| - 1]);
    }
  }

  lemma {:induction false} LatestCharacterized(s: seq<JournalEntry>)
    ensures Latest(s).None? <==> NoSleepSet(s)
    ensures Latest(s).Some? ==> exists i :: IsLatestPositive(s, i) && Latest(s) == Some(s[i])
  {
    if s != [] {
      var n := |s| - 1;
      var p := s[..n];
      LatestCharacterized(p);
      var x := s[n];
      var c := Latest(p);
      if x.sleepHours > 0.0 && (c.None? || c.value.createdAt <= x.createdAt) {
        assert IsLatestPositive(s, n) by {
          forall j | 0 <= j < |s| && s[j].sleepHours > 0.0
            ensures s[j].createdAt < x.createdAt || (s[j].createdAt == x.createdAt && j <= n)
          {
            if j < n {
              assert p[j] == s[j];
              var i :| IsLatestPositive(p, i) && c == Some(p[i]);
            }
          }
        }
      } else if c.Some? {
        var i :| IsLatestPositive(p, i) && c == Some(p[i]);
        assert IsLatestPositive(s, i) by {
          forall j | 0 <= j < |s| && s[j].sleepHours > 0.0
            ensures s[j].createdAt < s[i].createdAt || (s[j].createdAt == s[i].createdAt && j <= i)
          {
            if j < n { assert p[j] == s[j]; }
          }
        }
      } else {
        forall j | 0 <= j < |s| ensures s[j].sleepHours <= 0.0 {
          if j < n { assert p[j] == s[j]; }
        }
      }
    }
  }

  lemma LatestPositiveUnique(s: seq<JournalEntry>, i: int, k: int)
    requires IsLatestPositive(s, i) && IsLatestPositive(s, k)
    ensures i == k
  {
  }

  /**
   * The latest non-zero sleep is null exactly when no entry has sleep set,
   * and otherwise it is the sleep of the entry with the latest `createdAt`
   * among those with sleep set; of several equally late ones, the one that
   * comes last in the input wins (the sort is stable).
   */
  lemma LatestPositiveSleepSpec(s: seq<JournalEntry>)
    ensures LatestPositiveSleep(s).None? <==> NoSleepSet(s)
    ensures !NoSleepSet(s) ==> exists i :: IsLatestPositive(s, i)
    ensures forall i :: IsLatestPositive(s, i) ==> LatestPositiveSleep(s) == Some(s[i].sleepHours)
    ensures LatestPositiveSleep(s).Some? ==> LatestPositiveSleep(s).value > 0.0
  {
    LastPositiveValueOfSleeps(SortByCreatedAt(s));
    SortedLastPositiveIsLatest(s);
    LatestCharacterized(s);
    forall i | IsLatestPositive(s, i) ensures LatestPositiveSleep(s) == Some(s[i].sleepHours) {
      var k :| IsLatestPositive(s, k) && Latest(s) == Some(s[k]);
      LatestPositiveUnique(s, i, k);
    }
  }
}
