/** The canonical per-minute key of an epoch-millisecond timestamp
    (`iso_timestamp` in dags/example_dag.py).

    `iso_timestamp` converts the milliseconds to a UTC instant, zeroes the
    seconds and microseconds and renders the result as an ISO-8601 string.
    The model keeps the minute itself, as the number of whole minutes since
    the epoch. Python's datetime covers years 1 to 9999, where the ISO
    rendering has a fixed width, is injective and sorts in time order, so
    equality and order of keys are those of this integer. Outside that range
    the conversion raises, while this model still gives a minute. */
module MinuteKey {

  const MillisPerMinute: int := 60000

  /** The first millisecond of minute `m`: the instant whose seconds and
      microseconds are zero. */
  function MinuteStart(m: int): int
  {
    m * MillisPerMinute
  }

  /** The minute that contains the instant `ms`. For instants before the
      epoch this is still the minute that contains the instant (the floor),
      as it is for Python's datetime arithmetic. */
  function IsoTimestamp(ms: int): (m: int)
    ensures MinuteStart(m) <= ms < MinuteStart(m) + MillisPerMinute
  {
    ms / MillisPerMinute
  }

  /** Any instant inside minute `m` gets key `m`: the key depends only on
      the minute, never on the seconds or sub-second offset. */
  lemma InMinuteHasKey(ms: int, m: int)
    requires MinuteStart(m) <= ms < MinuteStart(m) + MillisPerMinute
    ensures IsoTimestamp(ms) == m
  {
  }

  /** Two instants share a key exactly when they lie in the same minute. */
  lemma SameMinuteSameKey(a: int, b: int)
    ensures IsoTimestamp(a) == IsoTimestamp(b)
        <==> MinuteStart(IsoTimestamp(a)) <= b < MinuteStart(IsoTimestamp(a)) + MillisPerMinute
  {
    if MinuteStart(IsoTimestamp(a)) <= b < MinuteStart(IsoTimestamp(a)) + MillisPerMinute {
      InMinuteHasKey(b, IsoTimestamp(a));
    }
  }

  /** Canonicalising an instant that is already truncated to its minute
      gives the same key again. */
  lemma TruncationIdempotent(ms: int)
    ensures IsoTimestamp(MinuteStart(IsoTimestamp(ms))) == IsoTimestamp(ms)
  {
    InMinuteHasKey(MinuteStart(IsoTimestamp(ms)), IsoTimestamp(ms));
  }

  /** Keys never run backwards in time. */
  lemma KeyMonotone(a: int, b: int)
    requires a <= b
    ensures IsoTimestamp(a) <= IsoTimestamp(b)
  {
  }
}
