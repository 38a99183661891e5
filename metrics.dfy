/**
 * The day aggregation behind the metrics chart: entries grouped by local
 * date, either every date of the chosen range or only its dates that have
 * entries ("compact"), and per date the latest non-zero sleep, the mean mood
 * and the four toggle counts.
 */
module Metrics {
  import opened Wrappers
  import opened JournalModel
  import opened EntryOrder

  /** One point of the chart. */
  datatype DayAgg = DayAgg(date: LocalDate, sleep: real, mood: Option<real>, cX: nat, cY: nat, cZ: nat, cW: nat)

  /** The four activity toggles of an entry. */
  datatype Toggle = X | Y | Z | W

  predicate ToggleOf(e: JournalEntry, t: Toggle) {
    match t
    case X => e.toggleX
    case Y => e.toggleY
    case Z => e.toggleZ
    case W => e.toggleW
  }

  function CountOf(a: DayAgg, t: Toggle): nat {
    match t
    case X => a.cX
    case Y => a.cY
    case Z => a.cZ
    case W => a.cW
  }

  ghost predicate Ascending(s: seq<LocalDate>) {
    forall i, j :: 0 <= i < j < |s| ==> s[i] <= s[j]
  }

  ghost predicate StrictlyAscending(s: seq<LocalDate>) {
    forall i, j :: 0 <= i < j < |s| ==> s[i] < s[j]
  }

  /** Some entry of `es` falls on local date `d`. */
  ghost predicate HasEntryOn(es: seq<JournalEntry>, d: LocalDate, localDate: Instant -> LocalDate) {
    exists i :: 0 <= i < |es| && localDate(es[i].createdAt) == d
  }

  /** `grouped[d].orEmpty()`: the entries of local date `d`, in input order. */
  function EntriesOn(es: seq<JournalEntry>, d: LocalDate, localDate: Instant -> LocalDate): (r: seq<JournalEntry>)
    ensures |r| <= |es|
    ensures forall k :: 0 <= k < |r| ==> localDate(r[k].createdAt) == d
    ensures r == [] <==> !HasEntryOn(es, d, localDate)
  {
    if es == [] then []
    else
      var n := |es| - 1;
      var p := EntriesOn(es[..n], d, localDate);
      assert HasEntryOn(es, d, localDate) <==> HasEntryOn(es[..n], d, localDate) || localDate(es[n].createdAt) == d by {
        if HasEntryOn(es, d, localDate) {
          var i :| 0 <= i < |es| && localDate(es[i].createdAt) == d;
          if i < n { assert es[..n][i] == es[i]; }
        }
        if HasEntryOn(es[..n], d, localDate) {
          var i :| 0 <= i < n && localDate(es[..n][i].createdAt) == d;
          assert es[i] == es[..n][i];
        }
      }
      if localDate(es[n].createdAt) == d then p + [es[n]] else p
  }

  /** A day's group holds exactly the entries of that date. */
  lemma {:induction false} EntriesOnIsFilter(es: seq<JournalEntry>, d: LocalDate, localDate: Instant -> LocalDate)
    ensures forall e :: e in EntriesOn(es, d, localDate) <==> e in es && localDate(e.createdAt) == d
  {
    if es != [] {
      var n := |es| - 1;
      EntriesOnIsFilter(es[..n], d, localDate);
      assert es == es[..n] + [es[n]];
    }
  }

  /** Grouping keeps input order: the group of a concatenation is the concatenation of the groups. */
  lemma {:induction false} EntriesOnConcat(a: seq<JournalEntry>, b: seq<JournalEntry>, d: LocalDate, localDate: Instant -> LocalDate)
    ensures EntriesOn(a + b, d, localDate) == EntriesOn(a, d, localDate) + EntriesOn(b, d, localDate)
  {
    if b == [] {
      assert a + b == a;
    } else {
      var n := |b| - 1;
      assert (a + b)[..|a + b| - 1] == a + b[..n];
      EntriesOnConcat(a, b[..n], d, localDate);
    }
  }

  /** The keys of `groupBy`: each local date that has entries, once, in order of first appearance. */
  function GroupKeys(es: seq<JournalEntry>, localDate: Instant -> LocalDate): (r: seq<LocalDate>)
    ensures Distinct(r)
    ensures forall d :: d in r <==> HasEntryOn(es, d, localDate)
  {
    if es == [] then []
    else
      var n := |es| - 1;
      var k := GroupKeys(es[..n], localDate);
      var d := localDate(es[n].createdAt);
      assert forall d' :: HasEntryOn(es, d', localDate) <==> HasEntryOn(es[..n], d', localDate) || d == d' by {
        forall d' ensures HasEntryOn(es, d', localDate) <==> HasEntryOn(es[..n], d', localDate) || d == d' {
          if HasEntryOn(es, d', localDate) {
            var i :| 0 <= i < |es| && localDate(es[i].createdAt) == d';
            if i < n { assert es[..n][i] == es[i]; }
          }
          if HasEntryOn(es[..n], d', localDate) {
            var i :| 0 <= i < n && localDate(es[..n][i].createdAt) == d';
            assert es[i] == es[..n][i];
          }
        }
      }
      if d in k then k else k + [d]
  }

  /** `filter { !it.isBefore(start) && !it.isAfter(end) }`. */
  function InRange(keys: seq<LocalDate>, start: LocalDate, end: LocalDate): (r: seq<LocalDate>)
    ensures forall d :: d in r <==> d in keys && start <= d <= end
    ensures Distinct(keys) ==> Distinct(r)
  {
    if keys == [] then []
    else
      var n := |keys| - 1;
      assert keys == keys[..n] + [keys[n]];
      var p := InRange(keys[..n], start, end);
      assert Distinct(keys) ==> keys[n] !in keys[..n];
      if start <= keys[n] <= end then p + [keys[n]] else p
  }

  /** Inserts `x` into an ascending sequence of dates. */
  function InsertDate(s: seq<LocalDate>, x: LocalDate): (r: seq<LocalDate>)
    ensures multiset(r) == multiset(s) + multiset{x}
    ensures |r| == |s| + 1 && (r[0] == x || (s != [] && r[0] == s[0]))
  {
    if s == [] then [x]
    else if x < s[0] then [x] + s
    else
      var rest := InsertDate(s[1..], x);
      assert s == [s[0]] + s[1..];
      [s[0]] + rest
  }

  /** Inserting into ascending dates keeps them ascending. */
  lemma {:induction false} InsertDateAscending(s: seq<LocalDate>, x: LocalDate)
    requires Ascending(s)
    ensures Ascending(InsertDate(s, x))
  {
    if s == [] {
    } else if x < s[0] {
      PrependAscending(x, s);
    } else {
      var tail := s[1..];
      assert Ascending(tail);
      InsertDateAscending(tail, x);
      var rest := InsertDate(tail, x);
      assert tail != [] ==> s[0] <= tail[0];
      PrependAscending(s[0], rest);
    }
  }

  lemma PrependAscending(a: LocalDate, t: seq<LocalDate>)
    requires Ascending(t) && (t == [] || a <= t[0])
    ensures Ascending([a] + t)
  {
    var r := [a] + t;
    forall i, j | 0 <= i < j < |r| ensures r[i] <= r[j] {
      if i > 0 {
        assert r[i] == t[i - 1] && r[j] == t[j - 1];
      } else {
        assert t[0] <= t[j - 1];
      }
    }
  }

  /** `sorted()` on dates, modelled as an insertion sort. */
  function SortDates(s: seq<LocalDate>): (r: seq<LocalDate>)
    ensures multiset(r) == multiset(s)
    ensures Ascending(r)
  {
    if s == [] then []
    else
      var n := |s| - 1;
      assert s == s[..n] + [s[n]];
      var sorted := SortDates(s[..n]);
      InsertDateAscending(sorted, s[n]);
      InsertDate(sorted, s[n])
  }

  lemma {:induction false} DistinctCounts(s: seq<LocalDate>, v: LocalDate)
    requires Distinct(s)
    ensures multiset(s)[v] <= 1
  {
    if s != [] {
      var n := |s| - 1;
      assert s == s[..n] + [s[n]];
      DistinctCounts(s[..n], v);
      if s[n] == v { assert v !in s[..n]; }
    }
  }

  /** Sorting dates that are distinct gives strictly ascending dates. */
  lemma SortDistinctDates(s: seq<LocalDate>)
    requires Distinct(s)
    ensures StrictlyAscending(SortDates(s))
  {
    var r := SortDates(s);
    forall i, j | 0 <= i < j < |r| ensures r[i] < r[j] {
      if r[i] == r[j] {
        TwoOccurrences(r, i, j);
        DistinctCounts(s, r[i]);
        assert false;
      }
    }
  }

  /** A value at two positions occurs at least twice. */
  lemma TwoOccurrences(r: seq<LocalDate>, i: int, j: int)
    requires 0 <= i < j < |r| && r[i] == r[j]
    ensures multiset(r)[r[i]] >= 2
  {
    var v := r[i];
    assert r == r[..j] + r[j..];
    assert multiset(r) == multiset(r[..j]) + multiset(r[j..]);
    assert r[..j][i] == v && r[j..][0] == v;
    assert v in multiset(r[..j]) && v in multiset(r[j..]);
  }

  /**
   * The compact mode's dates: the dates within [start, end] that have at
   * least one entry, each once, ascending.
   */
  function CompactDates(es: seq<JournalEntry>, start: LocalDate, end: LocalDate, localDate: Instant -> LocalDate): (r: seq<LocalDate>)
    ensures StrictlyAscending(r)
    ensures forall d :: d in r <==> start <= d <= end && HasEntryOn(es, d, localDate)
  {
    var keys := InRange(GroupKeys(es, localDate), start, end);
    var r := SortDates(keys);
    SortDistinctDates(keys);
    assert forall d :: d in r <==> d in keys by {
      forall d ensures d in r <==> d in keys {
        assert d in r <==> d in multiset(r);
        assert d in keys <==> d in multiset(keys);
      }
    }
    r
  }

  /** `generateSequence(start) { it.plusDays(1) }.takeWhile { !it.isAfter(end) }`. */
  function DateRange(start: LocalDate, end: LocalDate): (r: seq<LocalDate>)
    requires start <= end
    ensures |r| == end - start + 1
    ensures r[0] == start && r[|r| - 1] == end
    ensures forall i :: 0 < i < |r| ==> r[i] == r[i - 1] + 1
  {
    seq(end - start + 1, i requires 0 <= i <= end - start => start + i)
  }

  /** No entry of `es` has a mood rating. */
  ghost predicate NoRating(es: seq<JournalEntry>) {
    forall k :: 0 <= k < |es| ==> es[k].moodRating.None?
  }

  /** The present mood ratings, in order (`mapNotNull { it.moodRating }`). */
  function Ratings(es: seq<JournalEntry>): (r: seq<int>)
    ensures r == [] <==> NoRating(es)
    ensures |r| <= |es|
    ensures |es| == 1 ==> r == (if es[0].moodRating.Some? then [es[0].moodRating.value] else [])
  {
    if es == [] then []
    else
      var n := |es| - 1;
      assert NoRating(es) <==> NoRating(es[..n]) && es[n].moodRating.None?;
      Ratings(es[..n]) + (if es[n].moodRating.Some? then [es[n].moodRating.value] else [])
  }

  /** `mapNotNull` keeps order: the ratings of a concatenation are the concatenation of the ratings. */
  lemma {:induction false} RatingsConcat(a: seq<JournalEntry>, b: seq<JournalEntry>)
    ensures Ratings(a + b) == Ratings(a) + Ratings(b)
  {
    if b == [] {
      assert a + b == a;
    } else {
      var n := |b| - 1;
      assert (a + b)[..|a + b| - 1] == a + b[..n];
      RatingsConcat(a, b[..n]);
    }
  }

  function Sum(s: seq<int>): int {
    if s == [] then 0 else Sum(s[..|s| - 1]) + s[|s| - 1]
  }

  /** The average of the present ratings, or null (not 0) when there are none. */
  function MoodMean(es: seq<JournalEntry>): Option<real> {
    var rs := Ratings(es);
    if rs == [] then None else Some(Sum(rs) as real / |rs| as real)
  }

  /** `count { it.toggleX }` and its three siblings. */
  function CountToggle(es: seq<JournalEntry>, t: Toggle): (c: nat)
    ensures c <= |es|
  {
    if es == [] then 0
    else CountToggle(es[..|es| - 1], t) + (if ToggleOf(es[|es| - 1], t) then 1 else 0)
  }

  /** The aggregate of local date `d`. */
  function DayOf(es: seq<JournalEntry>, d: LocalDate, localDate: Instant -> LocalDate): DayAgg {
    var list := EntriesOn(es, d, localDate);
    DayAgg(
      date := d,
      sleep := LatestPositiveSleep(list).GetOr(0.0),
      mood := MoodMean(list),
      cX := CountToggle(list, X),
      cY := CountToggle(list, Y),
      cZ := CountToggle(list, Z),
      cW := CountToggle(list, W))
  }

  function DaysFor(es: seq<JournalEntry>, dates: seq<LocalDate>, localDate: Instant -> LocalDate): (r: seq<DayAgg>)
    ensures |r| == |dates| && forall i :: 0 <= i < |r| ==> r[i] == DayOf(es, dates[i], localDate)
  {
    seq(|dates|, i requires 0 <= i < |dates| => DayOf(es, dates[i], localDate))
  }

  /**
   * `aggregateDays`: empty when `end` is before `start`; otherwise one
   * aggregate per emitted date, the dates being the whole range or, in
   * compact mode, its dates that have entries.
   */
  function AggregateDays(es: seq<JournalEntry>, start: LocalDate, end: LocalDate, compact: bool,
                         localDate: Instant -> LocalDate): (r: seq<DayAgg>)
    ensures end < start ==> r == []
    ensures forall i :: 0 <= i < |r| ==> r[i] == DayOf(es, r[i].date, localDate)
    ensures forall i :: 0 <= i < |r| ==> start <= r[i].date <= end
    ensures forall i, j :: 0 <= i < j < |r| ==> r[i].date < r[j].date
  {
    if end < start then []
    else
      var dates := if compact then CompactDates(es, start, end, localDate) else DateRange(start, end);
      assert forall i :: 0 <= i < |dates| ==> dates[i] in dates;
      DaysFor(es, dates, localDate)
  }

  /** Full mode emits every date of [start, end], ascending one day at a time. */
  lemma AggregateFullRange(es: seq<JournalEntry>, start: LocalDate, end: LocalDate, localDate: Instant -> LocalDate)
    requires start <= end
    ensures |AggregateDays(es, start, end, false, localDate)| == end - start + 1
    ensures forall i :: 0 <= i < end - start + 1 ==> AggregateDays(es, start, end, false, localDate)[i].date == start + i
  {
    var dates := DateRange(start, end);
    forall i | 0 <= i < end - start + 1 ensures dates[i] == start + i {
      DateRangeAt(start, end, i);
    }
  }

  lemma {:induction false} DateRangeAt(start: LocalDate, end: LocalDate, i: int)
    requires start <= end && 0 <= i <= end - start
    ensures DateRange(start, end)[i] == start + i
  {
    if i > 0 { DateRangeAt(start, end, i - 1); }
  }

  /** A strictly ascending run of dates inside [start, end] is no longer than the range. */
  lemma {:induction false} AscendingWithinRange(s: seq<LocalDate>, start: LocalDate, end: LocalDate)
    requires StrictlyAscending(s)
    requires forall i :: 0 <= i < |s| ==> start <= s[i] <= end
    ensures |s| <= if end < start then 0 else end - start + 1
  {
    if s != [] {
      AscendingWithinRange(s[1..], s[0] + 1, end);
    }
  }

  /** The dates of a chart, in order. */
  function DatesOf(days: seq<DayAgg>): (r: seq<LocalDate>)
    ensures |r| == |days| && forall i :: 0 <= i < |days| ==> r[i] == days[i].date
  {
    seq(|days|, i requires 0 <= i < |days| => days[i].date)
  }

  /**
   * Compact mode emits exactly the dates of [start, end] that have at least
   * one entry, ascending without repeats, so never more than the range has.
   */
  lemma AggregateCompact(es: seq<JournalEntry>, start: LocalDate, end: LocalDate, localDate: Instant -> LocalDate)
    ensures forall d :: d in DatesOf(AggregateDays(es, start, end, true, localDate))
                        <==> start <= d <= end && HasEntryOn(es, d, localDate)
    ensures |AggregateDays(es, start, end, true, localDate)| <= if end < start then 0 else end - start + 1
  {
    var r := AggregateDays(es, start, end, true, localDate);
    var dates := DatesOf(r);
    AscendingWithinRange(dates, start, end);
    if start <= end {
      var cd := CompactDates(es, start, end, localDate);
      assert dates == cd;
    }
  }

  /** `lastOrNull() ?: 0f` over a day: 0 exactly when no entry has sleep set, else the latest set value. */
  lemma DaySleep(es: seq<JournalEntry>, d: LocalDate, localDate: Instant -> LocalDate)
    ensures var list := EntriesOn(es, d, localDate);
            && (DayOf(es, d, localDate).sleep == 0.0 <==> NoSleepSet(list))
            && forall i :: IsLatestPositive(list, i) ==> DayOf(es, d, localDate).sleep == list[i].sleepHours
  {
    var list := EntriesOn(es, d, localDate);
    assert DayOf(es, d, localDate).sleep == LatestPositiveSleep(list).GetOr(0.0);
    LatestPositiveSleepSpec(list);
  }

  lemma {:induction false} SumBounds(s: seq<int>, lo: int, hi: int)
    requires forall k :: 0 <= k < |s| ==> lo <= s[k] <= hi
    ensures lo * |s| <= Sum(s) <= hi * |s|
  {
    if s != [] {
      SumBounds(s[..|s| - 1], lo, hi);
    }
  }

  lemma {:induction false} RatingsFrom(es: seq<JournalEntry>, lo: int, hi: int)
    requires forall e :: e in es && e.moodRating.Some? ==> lo <= e.moodRating.value <= hi
    ensures forall k :: 0 <= k < |Ratings(es)| ==> lo <= Ratings(es)[k] <= hi
  {
    if es != [] {
      var n := |es| - 1;
      assert forall e :: e in es[..n] ==> e in es;
      RatingsFrom(es[..n], lo, hi);
    }
  }

  lemma DivBounds(sum: int, n: int, lo: int, hi: int)
    requires n > 0 && lo * n <= sum <= hi * n
    ensures lo as real <= sum as real / n as real <= hi as real
  {
    var q := sum as real / n as real;
    assert (lo * n) as real == lo as real * n as real;
    assert (hi * n) as real == hi as real * n as real;
    assert lo as real * n as real <= q * n as real <= hi as real * n as real;
  }

  /**
   * The mean of a list's ratings is null exactly when no entry has a rating;
   * otherwise it lies between any bounds the ratings respect.
   */
  lemma MoodMeanSpec(es: seq<JournalEntry>, lo: int, hi: int)
    requires forall e :: e in es && e.moodRating.Some? ==> lo <= e.moodRating.value <= hi
    ensures MoodMean(es).None? <==> NoRating(es)
    ensures MoodMean(es).Some? ==> lo as real <= MoodMean(es).value <= hi as real
    ensures MoodMean(es).Some? ==> IsMeanOf(MoodMean(es).value, Ratings(es))
  {
    MoodMeanIsMean(es);
    var rs := Ratings(es);
    if rs != [] {
      RatingsFrom(es, lo, hi);
      SumBounds(rs, lo, hi);
      DivBounds(Sum(rs), |rs|, lo, hi);
    }
  }

  /** `m` times the number of values is their sum. */
  ghost predicate IsMeanOf(m: real, rs: seq<int>) {
    m * (|rs| as real) == Sum(rs) as real
  }

  /** The mean times the number of present ratings is their sum. */
  lemma MoodMeanIsMean(es: seq<JournalEntry>)
    ensures MoodMean(es).Some? ==> IsMeanOf(MoodMean(es).value, Ratings(es))
  {
    var rs := Ratings(es);
    if rs != [] {
      DivMul(Sum(rs) as real, |rs| as real);
    }
  }

  lemma DivMul(a: real, n: real)
    requires n > 0.0
    ensures (a / n) * n == a
  {
  }

  /** A day's mood is the mood mean of the entries dated that day. */
  lemma DayMood(es: seq<JournalEntry>, d: LocalDate, localDate: Instant -> LocalDate, lo: int, hi: int)
    requires forall e :: e in es && e.moodRating.Some? ==> lo <= e.moodRating.value <= hi
    ensures var list := EntriesOn(es, d, localDate);
            var m := DayOf(es, d, localDate).mood;
            && (m.None? <==> NoRating(list))
            && (m.Some? ==> lo as real <= m.value <= hi as real)
            && (m.Some? ==> IsMeanOf(m.value, Ratings(list)))
  {
    var list := EntriesOn(es, d, localDate);
    assert forall e :: e in list && e.moodRating.Some? ==> lo <= e.moodRating.value <= hi by {
      EntriesOnIsFilter(es, d, localDate);
    }
    MoodMeanSpec(list, lo, hi);
    assert DayOf(es, d, localDate).mood == MoodMean(list);
  }

  /** A date without entries yields sleep 0, no mood and zero counts. */
  lemma EmptyDay(es: seq<JournalEntry>, d: LocalDate, localDate: Instant -> LocalDate)
    requires !HasEntryOn(es, d, localDate)
    ensures DayOf(es, d, localDate) == DayAgg(d, 0.0, None, 0, 0, 0, 0)
  {
  }

  /** The sum of one toggle's counts over the chart. */
  function TotalCount(days: seq<DayAgg>, t: Toggle): nat {
    if days == [] then 0 else TotalCount(days[..|days| - 1], t) + CountOf(days[|days| - 1], t)
  }

  /** Entries whose local date is one of `dates` and whose toggle `t` is on. */
  function DateCount(es: seq<JournalEntry>, dates: seq<LocalDate>, t: Toggle, localDate: Instant -> LocalDate): nat {
    if es == [] then 0
    else
      var e := es[|es| - 1];
      DateCount(es[..|es| - 1], dates, t, localDate) + (if localDate(e.createdAt) in dates && ToggleOf(e, t) then 1 else 0)
  }

  /** Entries whose local date lies in [start, end] and whose toggle `t` is on. */
  function RangeCount(es: seq<JournalEntry>, start: LocalDate, end: LocalDate, t: Toggle, localDate: Instant -> LocalDate): nat {
    if es == [] then 0
    else
      var e := es[|es| - 1];
      RangeCount(es[..|es| - 1], start, end, t, localDate) + (if start <= localDate(e.createdAt) <= end && ToggleOf(e, t) then 1 else 0)
  }

  lemma {:induction false} DateCountSplit(es: seq<JournalEntry>, dates: seq<LocalDate>, d: LocalDate, t: Toggle, localDate: Instant -> LocalDate)
    requires d !in dates
    ensures DateCount(es, dates + [d], t, localDate) == DateCount(es, dates, t, localDate) + CountToggle(EntriesOn(es, d, localDate), t)
  {
    if es != [] {
      var n := |es| - 1;
      DateCountSplit(es[..n], dates, d, t, localDate);
      var p := EntriesOn(es[..n], d, localDate);
      if localDate(es[n].createdAt) == d {
        assert (p + [es[n]])[..|p|] == p;
      }
    }
  }

  lemma {:induction false} DateCountNone(es: seq<JournalEntry>, t: Toggle, localDate: Instant -> LocalDate)
    ensures DateCount(es, [], t, localDate) == 0
  {
    if es != [] { DateCountNone(es[..|es| - 1], t, localDate); }
  }

  lemma {:induction false} DaysForTotal(es: seq<JournalEntry>, dates: seq<LocalDate>, t: Toggle, localDate: Instant -> LocalDate)
    requires Distinct(dates)
    ensures TotalCount(DaysFor(es, dates, localDate), t) == DateCount(es, dates, t, localDate)
  {
    if dates == [] {
      DateCountNone(es, t, localDate);
    } else {
      var n := |dates| - 1;
      var days := DaysFor(es, dates, localDate);
      var pre := DaysFor(es, dates[..n], localDate);
      assert days[..n] == pre;
      assert TotalCount(days, t) == TotalCount(pre, t) + CountOf(days[n], t);
      assert CountOf(days[n], t) == CountToggle(EntriesOn(es, dates[n], localDate), t);
      assert Distinct(dates[..n]) && dates[n] !in dates[..n];
      DaysForTotal(es, dates[..n], t, localDate);
      assert dates == dates[..n] + [dates[n]];
      DateCountSplit(es, dates[..n], dates[n], t, localDate);
    }
  }

  lemma {:induction false} DateCountIsRangeCount(es: seq<JournalEntry>, dates: seq<LocalDate>, start: LocalDate, end: LocalDate,
                                                 t: Toggle, localDate: Instant -> LocalDate)
    requires forall k :: 0 <= k < |es| ==> (localDate(es[k].createdAt) in dates <==> start <= localDate(es[k].createdAt) <= end)
    ensures DateCount(es, dates, t, localDate) == RangeCount(es, start, end, t, localDate)
  {
    if es != [] {
      DateCountIsRangeCount(es[..|es| - 1], dates, start, end, t, localDate);
    }
  }

  /**
   * Each toggle's counts, summed over the chart, equal the number of entries
   * dated within [start, end] with that toggle on, in both modes: every
   * in-range entry is counted on exactly one day and no other entry is
   * counted at all.
   */
  lemma AggregateToggleTotals(es: seq<JournalEntry>, start: LocalDate, end: LocalDate, compact: bool, t: Toggle,
                              localDate: Instant -> LocalDate)
    ensures TotalCount(AggregateDays(es, start, end, compact, localDate), t) == RangeCount(es, start, end, t, localDate)
  {
    var dates := if end < start then [] else if compact then CompactDates(es, start, end, localDate) else DateRange(start, end);
    if start <= end && !compact {
      forall d | start <= d <= end ensures d in dates {
        DateRangeAt(start, end, d - start);
      }
    }
    forall k | 0 <= k < |es|
      ensures localDate(es[k].createdAt) in dates <==> start <= localDate(es[k].createdAt) <= end
    {
      if compact && start <= end {
        assert HasEntryOn(es, localDate(es[k].createdAt), localDate);
      }
    }
    DaysForTotal(es, dates, t, localDate);
    DateCountIsRangeCount(es, dates, start, end, t, localDate);
  }

  /** The entries dated within [start, end], in input order. */
  function EntriesWithin(es: seq<JournalEntry>, start: LocalDate, end: LocalDate, localDate: Instant -> LocalDate): seq<JournalEntry> {
    if es == [] then []
    else
      var n := |es| - 1;
      EntriesWithin(es[..n], start, end, localDate) + (if start <= localDate(es[n].createdAt) <= end then [es[n]] else [])
  }

  lemma {:induction false} EntriesOnWithin(es: seq<JournalEntry>, start: LocalDate, end: LocalDate, d: LocalDate,
                                           localDate: Instant -> LocalDate)
    requires start <= d <= end
    ensures EntriesOn(EntriesWithin(es, start, end, localDate), d, localDate) == EntriesOn(es, d, localDate)
  {
    if es != [] {
      var n := |es| - 1;
      EntriesOnWithin(es[..n], start, end, d, localDate);
      var w := EntriesWithin(es[..n], start, end, localDate);
      if start <= localDate(es[n].createdAt) <= end {
        var w' := w + [es[n]];
        assert EntriesWithin(es, start, end, localDate) == w';
        assert w'[..|w'| - 1] == w && w'[|w'| - 1] == es[n];
      } else {
        assert EntriesWithin(es, start, end, localDate) == w;
      }
    }
  }

  /** Two strictly ascending sequences with the same members are equal. */
  lemma {:induction false} AscendingUnique(a: seq<LocalDate>, b: seq<LocalDate>)
    requires StrictlyAscending(a) && StrictlyAscending(b)
    requires forall d :: d in a <==> d in b
    ensures a == b
  {
    assert b != [] ==> b[0] in b;
    if a != [] {
      assert a[0] in a;
      assert a[0] in b;
      assert b[0] in b;
      assert b[0] in a;
      assert a[0] == b[0];
      forall d ensures d in a[1..] <==> d in b[1..] {
        assert d in a[1..] <==> d in a && d != a[0];
        assert d in b[1..] <==> d in b && d != b[0];
      }
      AscendingUnique(a[1..], b[1..]);
      assert a == [a[0]] + a[1..] && b == [b[0]] + b[1..];
    }
  }

  /** Entries dated outside [start, end] have no effect on the chart, in either mode. */
  lemma AggregateIgnoresOutOfRange(es: seq<JournalEntry>, start: LocalDate, end: LocalDate, compact: bool,
                                   localDate: Instant -> LocalDate)
    ensures AggregateDays(EntriesWithin(es, start, end, localDate), start, end, compact, localDate)
            == AggregateDays(es, start, end, compact, localDate)
  {
    if start <= end {
      var within := EntriesWithin(es, start, end, localDate);
      forall d | start <= d <= end
        ensures EntriesOn(within, d, localDate) == EntriesOn(es, d, localDate)
        ensures HasEntryOn(within, d, localDate) <==> HasEntryOn(es, d, localDate)
      {
        EntriesOnWithin(es, start, end, d, localDate);
      }
      var dates := if compact then CompactDates(es, start, end, localDate) else DateRange(start, end);
      if compact {
        AscendingUnique(CompactDates(within, start, end, localDate), dates);
      }
      var r := AggregateDays(within, start, end, compact, localDate);
      var r' := AggregateDays(es, start, end, compact, localDate);
      assert |r| == |r'|;
      forall i | 0 <= i < |r| ensures r[i] == r'[i] {
        assert dates[i] in dates;
      }
    }
  }

  /** The smallest date of a non-empty list. */
  function MinDate(s: seq<LocalDate>): (m: LocalDate)
    requires s != []
    ensures m in s && forall k :: 0 <= k < |s| ==> m <= s[k]
  {
    if |s| == 1 then s[0]
    else
      var m := MinDate(s[1..]);
      assert forall k :: 1 <= k < |s| ==> s[k] == s[1..][k - 1];
      if s[0] <= m then s[0] else m
  }

  /** The largest date of a non-empty list. */
  function MaxDate(s: seq<LocalDate>): (m: LocalDate)
    requires s != []
    ensures m in s && forall k :: 0 <= k < |s| ==> s[k] <= m
  {
    if |s| == 1 then s[0]
    else
      var m := MaxDate(s[1..]);
      assert forall k :: 1 <= k < |s| ==> s[k] == s[1..][k - 1];
      if s[0] >= m then s[0] else m
  }

  function LocalDates(es: seq<JournalEntry>, localDate: Instant -> LocalDate): (r: seq<LocalDate>)
    ensures |r| == |es| && forall k :: 0 <= k < |es| ==> r[k] == localDate(es[k].createdAt)
  {
    seq(|es|, k requires 0 <= k < |es| => localDate(es[k].createdAt))
  }

  /** The chart's date range: chosen once both ends are set. */
  datatype DateSpan = DateSpan(start: LocalDate, end: LocalDate)

  /**
   * The range the screen starts from. A range already set is kept; when
   * either end is missing, both are reset: to the first and last local date
   * among the entries, or to the fourteen days before `today` and `today`
   * when there are no entries.
   */
  function InitialRange(start: Option<LocalDate>, end: Option<LocalDate>, es: seq<JournalEntry>, today: LocalDate,
                        localDate: Instant -> LocalDate): (r: DateSpan)
    ensures start.Some? && end.Some? ==> r == DateSpan(start.value, end.value)
    ensures (start.None? || end.None?) && es == [] ==> r == DateSpan(today - 14, today)
    ensures (start.None? || end.None?) && es != [] ==>
              && r.start <= r.end
              && (exists i :: 0 <= i < |es| && localDate(es[i].createdAt) == r.start)
              && (exists j :: 0 <= j < |es| && localDate(es[j].createdAt) == r.end)
              && forall k :: 0 <= k < |es| ==> r.start <= localDate(es[k].createdAt) <= r.end
  {
    if start.Some? && end.Some? then DateSpan(start.value, end.value)
    else if es == [] then DateSpan(today - 14, today)
    else
      var dates := LocalDates(es, localDate);
      DateSpan(MinDate(dates), MaxDate(dates))
  }

  /** Starting from the entries' own range, compact mode shows every day that has an entry. */
  lemma InitialRangeCoversEntries(es: seq<JournalEntry>, today: LocalDate, localDate: Instant -> LocalDate)
    requires es != []
    ensures var r := InitialRange(None, None, es, today, localDate);
            forall k :: 0 <= k < |es| ==>
              localDate(es[k].createdAt) in DatesOf(AggregateDays(es, r.start, r.end, true, localDate))
  {
    var r := InitialRange(None, None, es, today, localDate);
    AggregateCompact(es, r.start, r.end, localDate);
    forall k | 0 <= k < |es|
      ensures HasEntryOn(es, localDate(es[k].createdAt), localDate)
    {
    }
  }
}
