/**
 * The database type converters: an `Instant` column is stored as whole
 * epoch seconds, and null stays null in both directions.
 */
module Converters {
  import opened Wrappers
  import opened JournalModel

  /** `Instant.ofEpochSecond` on a nullable column value. */
  function ToInstant(epochSeconds: Option<int>): (r: Option<Instant>)
    ensures r.None? <==> epochSeconds.None?
    ensures r.Some? ==> r.value % NanosPerSecond == 0
  {
    match epochSeconds
    case None => None
    case Some(s) => Some(s * NanosPerSecond)
  }

  /**
   * `Instant.epochSecond` on a nullable instant: the whole seconds, counted
   * towards the past, so the sub-second part is dropped.
   */
  function FromInstant(instant: Option<Instant>): (r: Option<int>)
    ensures r.None? <==> instant.None?
    ensures r.Some? ==> r.value * NanosPerSecond <= instant.value < (r.value + 1) * NanosPerSecond
  {
    match instant
    case None => None
    case Some(i) => Some(i / NanosPerSecond)
  }

  /** Reading back a stored second value gives the same value. */
  lemma SecondsRoundTrip(s: Option<int>)
    ensures FromInstant(ToInstant(s)) == s
  {
    if s.Some? {
      var i := s.value * NanosPerSecond;
      assert FromInstant(ToInstant(s)).value * NanosPerSecond <= i;
    }
  }

  /**
   * Storing an instant and reading it back floors it to the whole second:
   * the result is at most one second earlier and has no sub-second part.
   */
  lemma InstantRoundTrip(i: Instant)
    ensures ToInstant(FromInstant(Some(i))) == Some(i - i % NanosPerSecond)
    ensures i - NanosPerSecond < ToInstant(FromInstant(Some(i))).value <= i
  {
  }
}
