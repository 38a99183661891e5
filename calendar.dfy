/**
 * The calendar screen: the proleptic Gregorian calendar as epoch days, the
 * 42-cell Sunday-first month grid, month navigation, and the guard on the
 * add-todo field.
 */
module Calendar {
  import opened Wrappers
  import opened JournalModel
  import opened KotlinText

  type Month = m: int | 1 <= m <= 12 witness 1

  datatype YearMonth = YearMonth(year: int, month: Month)

  /** Days from 0000-01-01 to 1970-01-01. */
  const DaysToEpoch := 719528

  /** The number of cells of the month grid: six weeks. */
  const GridCells := 42

  predicate IsLeap(y: int) {
    y % 4 == 0 && (y % 100 != 0 || y % 400 == 0)
  }

  function MonthLength(y: int, m: Month): (n: int)
    ensures 28 <= n <= 31
  {
    if m == 2 then (if IsLeap(y) then 29 else 28)
    else if m == 4 || m == 6 || m == 9 || m == 11 then 30
    else 31
  }

  function YearLength(y: int): int {
    if IsLeap(y) then 366 else 365
  }

  /** Days of year `y` before the first of month `m`. */
  function DaysBeforeMonth(y: int, m: Month): int {
    var table := [0, 31, 59, 90, 120, 151, 181, 212, 243, 273, 304, 334];
    table[m - 1] + (if m > 2 && IsLeap(y) then 1 else 0)
  }

  /** Days from 0000-01-01 to the first of year `y`: 365 a year plus one per leap year before it. */
  function DaysBeforeYear(y: int): int {
    365 * y + (y + 3) / 4 - (y + 99) / 100 + (y + 399) / 400
  }

  /** `LocalDate.of(y, m, d).toEpochDay()`. */
  function EpochDay(y: int, m: Month, d: int): LocalDate {
    DaysBeforeYear(y) + DaysBeforeMonth(y, m) + d - 1 - DaysToEpoch
  }

  /** `dayOfWeek.value`: Monday is 1, Sunday is 7; 1970-01-01 was a Thursday. */
  function DayOfWeek(day: LocalDate): (w: int)
    ensures 1 <= w <= 7
  {
    (day + 3) % 7 + 1
  }

  /** The number of multiples of 4 up to a year steps by one exactly at a multiple of 4. */
  lemma StepBy4(y: int)
    ensures (y + 4) / 4 - (y + 3) / 4 == if y % 4 == 0 then 1 else 0
  {
    var q, r := (y + 3) / 4, (y + 3) % 4;
    assert y + 3 == 4 * q + r && 0 <= r < 4;
    if r == 3 {
      assert y + 4 == 4 * (q + 1) && y == 4 * q;
    } else {
      assert y + 4 == 4 * q + (r + 1) && y == 4 * (q - 1) + (r + 1);
    }
  }

  /** Likewise for the multiples of 100. */
  lemma StepBy100(y: int)
    ensures (y + 100) / 100 - (y + 99) / 100 == if y % 100 == 0 then 1 else 0
  {
    var q, r := (y + 99) / 100, (y + 99) % 100;
    assert y + 99 == 100 * q + r && 0 <= r < 100;
    if r == 99 {
      assert y + 100 == 100 * (q + 1) && y == 100 * q;
    } else {
      assert y + 100 == 100 * q + (r + 1) && y == 100 * (q - 1) + (r + 1);
    }
  }

  /** Likewise for the multiples of 400. */
  lemma StepBy400(y: int)
    ensures (y + 400) / 400 - (y + 399) / 400 == if y % 400 == 0 then 1 else 0
  {
    var q, r := (y + 399) / 400, (y + 399) % 400;
    assert y + 399 == 400 * q + r && 0 <= r < 400;
    if r == 399 {
      assert y + 400 == 400 * (q + 1) && y == 400 * q;
    } else {
      assert y + 400 == 400 * q + (r + 1) && y == 400 * (q - 1) + (r + 1);
    }
  }

  /** Every multiple of 400 is a multiple of 100, and every multiple of 100 one of 4. */
  lemma DivisibilityChain(y: int)
    ensures y % 400 == 0 ==> y % 100 == 0
    ensures y % 100 == 0 ==> y % 4 == 0
  {
    if y % 400 == 0 {
      var q := y / 400;
      assert y == 400 * q;
      assert y == 100 * (4 * q);
    }
    if y % 100 == 0 {
      var q := y / 100;
      assert y == 100 * q;
      assert y == 4 * (25 * q);
    }
  }

  /** A year holds 366 days when leap and 365 otherwise. */
  lemma YearSpan(y: int)
    ensures DaysBeforeYear(y + 1) == DaysBeforeYear(y) + YearLength(y)
  {
    StepBy4(y);
    StepBy100(y);
    StepBy400(y);
    DivisibilityChain(y);
    var a := (y + 4) / 4 - (y + 3) / 4;
    var b := (y + 100) / 100 - (y + 99) / 100;
    var c := (y + 400) / 400 - (y + 399) / 400;
    assert DaysBeforeYear(y + 1) - DaysBeforeYear(y) == 365 + a - b + c;
  }

  /**
   * Month lengths and epoch days agree: the first of the next month comes
   * exactly one month length after the first of this month.
   */
  lemma NextMonthStart(ym: YearMonth)
    ensures EpochDay(Next(ym).year, Next(ym).month, 1) == EpochDay(ym.year, ym.month, 1) + MonthLength(ym.year, ym.month)
  {
    NextRollsOver(ym);
    if ym.month == 12 {
      YearSpan(ym.year);
    }
  }

  /** The index of a month counted from January of year 0. */
  function MonthIndex(ym: YearMonth): int {
    ym.year * 12 + ym.month - 1
  }

  /** `plusMonths(k)`: year and month from the shifted month index. */
  function PlusMonths(ym: YearMonth, k: int): (r: YearMonth)
    ensures MonthIndex(r) == MonthIndex(ym) + k
  {
    var index := MonthIndex(ym) + k;
    YearMonth(index / 12, index % 12 + 1)
  }

  /** The Next button. */
  function Next(ym: YearMonth): YearMonth {
    PlusMonths(ym, 1)
  }

  /** The Prev button: `minusMonths(1)`. */
  function Prev(ym: YearMonth): YearMonth {
    PlusMonths(ym, -1)
  }

  /** A month is determined by its index. */
  lemma MonthIndexInjective(a: YearMonth, b: YearMonth)
    requires MonthIndex(a) == MonthIndex(b)
    ensures a == b
  {
    var i := MonthIndex(a);
    assert a.month - 1 == i - a.year * 12;
    assert i / 12 == a.year && i % 12 == a.month - 1 by {
      assert i == a.year * 12 + (a.month - 1) && 0 <= a.month - 1 < 12;
    }
    assert i / 12 == b.year && i % 12 == b.month - 1 by {
      assert i == b.year * 12 + (b.month - 1) && 0 <= b.month - 1 < 12;
    }
  }

  /** Next advances the month and rolls December over into January of the next year. */
  lemma NextRollsOver(ym: YearMonth)
    ensures ym.month < 12 ==> Next(ym) == YearMonth(ym.year, ym.month + 1)
    ensures ym.month == 12 ==> Next(ym) == YearMonth(ym.year + 1, 1)
  {
    if ym.month < 12 {
      MonthIndexInjective(Next(ym), YearMonth(ym.year, ym.month + 1));
    } else {
      MonthIndexInjective(Next(ym), YearMonth(ym.year + 1, 1));
    }
  }

  /** Prev steps the month back and rolls January back into December of the previous year. */
  lemma PrevRollsOver(ym: YearMonth)
    ensures ym.month > 1 ==> Prev(ym) == YearMonth(ym.year, ym.month - 1)
    ensures ym.month == 1 ==> Prev(ym) == YearMonth(ym.year - 1, 12)
  {
    if ym.month > 1 {
      MonthIndexInjective(Prev(ym), YearMonth(ym.year, ym.month - 1));
    } else {
      MonthIndexInjective(Prev(ym), YearMonth(ym.year - 1, 12));
    }
  }

  /** Prev undoes Next and Next undoes Prev. */
  lemma NavigationInverse(ym: YearMonth)
    ensures Prev(Next(ym)) == ym
    ensures Next(Prev(ym)) == ym
  {
    MonthIndexInjective(Prev(Next(ym)), ym);
    MonthIndexInjective(Next(Prev(ym)), ym);
  }

  /** Stepping back `DayOfWeek(day) % 7` days lands on a Sunday. */
  lemma SundayBefore(day: LocalDate)
    ensures DayOfWeek(day - DayOfWeek(day) % 7) == 7
  {
    var w := DayOfWeek(day);
    if w != 7 {
      assert (day + 3) % 7 == w - 1;
      assert (day - w + 3) % 7 == 6;
    }
  }

  /** How many cells of the previous month precede the first: 0 when it is a Sunday. */
  function Lead(ym: YearMonth): (n: int)
    ensures 0 <= n <= 6
  {
    DayOfWeek(EpochDay(ym.year, ym.month, 1)) % 7
  }

  /**
   * The month grid: 42 consecutive days starting on the Sunday on or before
   * the first, so the first sits at index `Lead` and every day of the month
   * sits in the grid, at index `Lead` plus the day minus one.
   */
  function DaysForMonth(ym: YearMonth): (r: seq<LocalDate>)
    ensures |r| == GridCells
    ensures forall i :: 0 < i < |r| ==> r[i] == r[i - 1] + 1
    ensures DayOfWeek(r[0]) == 7
    ensures r[Lead(ym)] == EpochDay(ym.year, ym.month, 1)
    ensures Lead(ym) + MonthLength(ym.year, ym.month) <= GridCells
    ensures forall d :: 1 <= d <= MonthLength(ym.year, ym.month) ==> r[Lead(ym) + d - 1] == EpochDay(ym.year, ym.month, d)
  {
    var first := EpochDay(ym.year, ym.month, 1);
    var lead := Lead(ym);
    assert lead == DayOfWeek(first) % 7;
    SundayBefore(first);
    var r := seq(GridCells, i requires 0 <= i < GridCells => first - lead + i);
    assert r[0] == first - lead;
    r
  }

  /** The result of pressing Add: the todo text to store, if any, and the field's new content. */
  datatype TodoSubmit = TodoSubmit(added: Option<string>, field: string)

  /**
   * The Add button trims the field; a non-empty result is stored and clears
   * the field, an empty one does nothing.
   */
  function SubmitTodo(newTodo: string): (r: TodoSubmit)
    ensures r.added.None? <==> IsBlank(newTodo)
    ensures r.added.None? ==> r.field == newTodo
    ensures r.added.Some? ==> r.field == [] && r.added.value != [] && IsTrimmed(r.added.value)
    ensures r.added.Some? ==> exists i, j :: 0 <= i <= j <= |newTodo| && r.added.value == newTodo[i..j]
    ensures r.added.Some? ==> r.added.value == Trim(newTodo)
  {
    var text := Trim(newTodo);
    if text != [] then TodoSubmit(Some(text), []) else TodoSubmit(None, newTodo)
  }
}
