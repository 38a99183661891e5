/**
 * The entry editor's helpers: the mood-emoji selection (at most three, the
 * oldest evicted), the rating guessed from the first emoji, and the sleep
 * value the editor starts from.
 */
module Editor {
  import opened Wrappers
  import opened JournalModel
  import opened EntryOrder
  import opened Metrics

  /** The editor lets the user select at most this many moods. */
  const MoodLimit := 3

  /** The sleep the editor proposes when today has no sleep yet. */
  const DefaultSleep := 7.0

  /** `filterNot { it == x }`: every `x` removed, every other element kept. */
  function Without(s: seq<string>, x: string): (r: seq<string>)
    ensures x !in r
    ensures forall y :: y != x ==> multiset(r)[y] == multiset(s)[y]
    ensures |r| <= |s|
  {
    if s == [] then []
    else
      var rest := Without(s[1..], x);
      assert s == [s[0]] + s[1..];
      if s[0] == x then rest else [s[0]] + rest
  }

  /** The kept elements stay in their order: removal distributes over concatenation. */
  lemma {:induction false} WithoutConcat(a: seq<string>, b: seq<string>, x: string)
    ensures Without(a + b, x) == Without(a, x) + Without(b, x)
  {
    if a == [] {
      assert a + b == b;
    } else {
      assert (a + b)[1..] == a[1..] + b;
      WithoutConcat(a[1..], b, x);
    }
  }

  function Min(a: int, b: int): int {
    if a <= b then a else b
  }

  /**
   * Selecting an emoji: an already selected one is removed (every copy),
   * otherwise it is appended and, past `limit`, the oldest are dropped so
   * exactly `limit` remain.
   */
  function ToggleEmoji(current: seq<string>, emoji: string, limit: int): (r: seq<string>)
    ensures emoji in current ==>
              && emoji !in r
              && forall y :: y != emoji ==> multiset(r)[y] == multiset(current)[y]
    ensures emoji in current ==> r == Without(current, emoji)
    ensures emoji !in current ==>
              var appended := current + [emoji];
              && |r| == (if limit <= 0 then 0 else Min(|appended|, limit))
              && r == appended[|appended| - |r|..]
    ensures emoji !in current && limit > 0 ==> r[|r| - 1] == emoji
  {
    if emoji in current then Without(current, emoji)
    else
      var appended := current + [emoji];
      if |appended| <= limit then appended
      else if limit <= 0 then []
      else appended[|appended| - limit..]
  }

  lemma {:induction false} WithoutAbsent(s: seq<string>, x: string)
    requires x !in s
    ensures Without(s, x) == s
  {
    if s != [] {
      WithoutAbsent(s[1..], x);
      assert [s[0]] + s[1..] == s;
    }
  }

  lemma {:induction false} WithoutAppend(s: seq<string>, x: string)
    ensures Without(s + [x], x) == Without(s, x)
  {
    if s == [] {
      assert Without([x], x) == Without([x][1..], x);
    } else {
      assert (s + [x])[1..] == s[1..] + [x];
      WithoutAppend(s[1..], x);
    }
  }

  /** Selecting a new emoji and then deselecting it restores the list while there was room. */
  lemma ToggleTwice(current: seq<string>, emoji: string, limit: int)
    requires emoji !in current && |current| < limit
    ensures ToggleEmoji(ToggleEmoji(current, emoji, limit), emoji, limit) == current
  {
    WithoutAppend(current, emoji);
    WithoutAbsent(current, emoji);
  }

  /**
   * The editor's selection stays within the limit and free of repeats: a
   * list that satisfies both still does after any toggle.
   */
  lemma ToggleKeepsSelection(current: seq<string>, emoji: string, limit: int)
    requires Distinct(current) && |current| <= limit
    ensures Distinct(ToggleEmoji(current, emoji, limit))
    ensures |ToggleEmoji(current, emoji, limit)| <= limit
  {
    if emoji in current {
      WithoutDistinct(current, emoji);
    } else {
      var appended := current + [emoji];
      assert Distinct(appended);
      SuffixDistinct(appended, |appended| - |ToggleEmoji(current, emoji, limit)|);
    }
  }

  lemma {:induction false} WithoutDistinct(s: seq<string>, x: string)
    requires Distinct(s)
    ensures Distinct(Without(s, x))
  {
    if s != [] {
      var rest := Without(s[1..], x);
      assert Distinct(s[1..]) by {
        forall i, j | 0 <= i < j < |s[1..]| ensures s[1..][i] != s[1..][j] {
          assert s[1..][i] == s[i + 1] && s[1..][j] == s[j + 1];
        }
      }
      WithoutDistinct(s[1..], x);
      if s[0] != x {
        assert s[0] !in rest by {
          assert s[0] !in s[1..];
          assert multiset(s[1..])[s[0]] == 0;
        }
        var r := [s[0]] + rest;
        forall i, j | 0 <= i < j < |r| ensures r[i] != r[j] {
          if i == 0 {
            assert r[j] == rest[j - 1];
          } else {
            assert r[i] == rest[i - 1] && r[j] == rest[j - 1];
          }
        }
      }
    }
  }

  lemma SuffixDistinct(s: seq<string>, k: int)
    requires Distinct(s) && 0 <= k <= |s|
    ensures Distinct(s[k..])
  {
    forall i, j | 0 <= i < j < |s[k..]| ensures s[k..][i] != s[k..][j] {
      assert s[k..][i] == s[k + i] && s[k..][j] == s[k + j];
    }
  }

  /** The rating heuristic's table, from one emoji. */
  function EmojiRating(e: string): Option<int> {
    if e == "\U{1F600}" || e == "\U{1F929}" then Some(5)        // grinning face, star-struck
    else if e == "\U{1F642}" || e == "\U{1F60E}" then Some(4)   // slightly smiling face, sunglasses
    else if e == "\U{1F610}" then Some(3)                       // neutral face
    else if e == "\U{1F641}" || e == "\U{1F624}" then Some(2)   // slightly frowning face, face with steam
    else if e == "\U{1F622}" || e == "\U{1F635}" then Some(1)   // crying face, dizzy face
    else None
  }

  /** The rating saved with an entry: null without moods, else the first mood's rating, always 1..5. */
  function MoodRatingFromEmojis(list: seq<string>): (r: Option<int>)
    ensures list == [] ==> r.None?
    ensures r.Some? ==> 1 <= r.value <= 5
  {
    if list == [] then None else EmojiRating(list[0])
  }

  /** Only the first mood matters. */
  lemma MoodRatingFirstOnly(a: seq<string>, b: seq<string>)
    requires a != [] && b != [] && a[0] == b[0]
    ensures MoodRatingFromEmojis(a) == MoodRatingFromEmojis(b)
  {
  }

  /** Emojis outside the table rate null: sleeping face, and the dizzy face joined with a spiral. */
  lemma MoodRatingOutsideTable()
    ensures MoodRatingFromEmojis(["\U{1F634}"]) == None
    ensures MoodRatingFromEmojis(["\U{1F635}\U{200D}\U{1F4AB}"]) == None
    ensures MoodRatingFromEmojis(["\U{1F635}", "\U{1F600}"]) == Some(1)
  {
  }

  /** Today's latest non-zero sleep, or null. */
  function TodaysSleep(all: seq<JournalEntry>, today: LocalDate, localDate: Instant -> LocalDate): Option<real> {
    LatestPositiveSleep(EntriesOn(all, today, localDate))
  }

  /** The sleep field's starting value. */
  function SleepPrefill(all: seq<JournalEntry>, today: LocalDate, localDate: Instant -> LocalDate): real {
    TodaysSleep(all, today, localDate).GetOr(DefaultSleep)
  }

  /**
   * The prefill is 7 when no entry of today has sleep set; otherwise it is
   * the sleep of today's latest entry with sleep set, the same value the
   * metrics chart shows for today.
   */
  lemma SleepPrefillSpec(all: seq<JournalEntry>, today: LocalDate, localDate: Instant -> LocalDate)
    ensures var list := EntriesOn(all, today, localDate);
            && (NoSleepSet(list) ==> SleepPrefill(all, today, localDate) == DefaultSleep)
            && (forall i :: IsLatestPositive(list, i) ==> SleepPrefill(all, today, localDate) == list[i].sleepHours)
            && SleepPrefill(all, today, localDate) > 0.0
            && (TodaysSleep(all, today, localDate).Some? ==> SleepPrefill(all, today, localDate) == DayOf(all, today, localDate).sleep)
  {
    var list := EntriesOn(all, today, localDate);
    var latest := LatestPositiveSleep(list);
    assert TodaysSleep(all, today, localDate) == latest;
    assert SleepPrefill(all, today, localDate) == latest.GetOr(DefaultSleep);
    assert DayOf(all, today, localDate).sleep == latest.GetOr(0.0);
    LatestPositiveSleepSpec(list);
  }
}
