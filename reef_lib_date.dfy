/**
 * The timestamp checks of packages/reef/src/lib/date.ts (the same code stands in
 * packages/sunshine/src/lib/utilities.ts): a number is a timestamp in seconds when it is an
 * integer from 1e9 to 1e10 - 1, and in milliseconds when it is an integer from 1e12 to
 * 1e13 - 1. A JavaScript number is a real here; `NaN` and the infinities are left out.
 */
module ReefLibDate {

  /** `Number.isInteger(t)`. */
  predicate IsInteger(t: real)
  {
    t == t.Floor as real
  }

  const MinSeconds: real := 1000000000.0
  const MaxSeconds: real := 9999999999.0
  const MinMillis: real := 1000000000000.0
  const MaxMillis: real := 9999999999999.0

  /** `timestampIsSec(t)`. */
  predicate TimestampIsSec(t: real)
  {
    IsInteger(t) && MinSeconds <= t <= MaxSeconds
  }

  /** `timestampIsMs(t)`. */
  predicate TimestampIsMs(t: real)
  {
    IsInteger(t) && MinMillis <= t <= MaxMillis
  }

  /** No number passes both checks: the two ranges are disjoint. */
  lemma SecondsAndMillisDisjoint(t: real)
    ensures !(TimestampIsSec(t) && TimestampIsMs(t))
  {
  }

  /** A seconds timestamp times 1000 is a milliseconds timestamp. */
  lemma SecondsScaleToMillis(t: real)
    requires TimestampIsSec(t)
    ensures TimestampIsMs(t * 1000.0)
  {
    var n := t.Floor;
    assert t * 1000.0 == (n * 1000) as real;
    assert (t * 1000.0).Floor == n * 1000;
  }

  /**
   * The repository's cases: 1640995200 is seconds and not milliseconds, 1640995200000 is
   * milliseconds and not seconds; -1, 1640995200.5, 1e10 and 1e8 are not seconds; 1e9 and
   * 1e10 - 1 are; 1e13 and 1e11 are not milliseconds; 1e12 and 1e13 - 1 are.
   */
  lemma TimestampExamples()
    ensures TimestampIsSec(1640995200.0) && !TimestampIsMs(1640995200.0)
    ensures TimestampIsMs(1640995200000.0) && !TimestampIsSec(1640995200000.0)
    ensures !TimestampIsSec(-1.0) && !TimestampIsMs(-1.0)
    ensures !TimestampIsSec(1640995200.5)
    ensures !TimestampIsSec(10000000000.0) && !TimestampIsSec(100000000.0)
    ensures TimestampIsSec(1000000000.0) && TimestampIsSec(9999999999.0)
    ensures !TimestampIsMs(10000000000000.0) && !TimestampIsMs(100000000000.0)
    ensures TimestampIsMs(1000000000000.0) && TimestampIsMs(9999999999999.0)
  {
    assert (1640995200.5).Floor == 1640995200;
  }
}
