/** `brrd.consts`: the fixed configuration, and the arithmetic facts the
    module asserts when it is loaded. */
module Consts {

  /** The Navigation Timing metrics that are tracked, in definition order. */
  const METRICS: seq<string> := ["responseStart", "firstPaint", "domComplete", "loadEventEnd"]

  /** Size of the sliding window, in seconds. */
  const WINDOW_SPAN: int := 300

  /** An update is pushed only when every metric has at least this many samples. */
  const SAMPLE_THRESHOLD: int := 200

  /** A year of 365.25 days, in seconds; the source writes it as a float product. */
  const YEAR: int := 60 * 60 * 24 * 36525 / 100

  /** Aggregation periods: hour, day, week, month, year. */
  const PERIODS: seq<int> := [60 * 60, 60 * 60 * 24, 60 * 60 * 24 * 7, 60 * 60 * 24 * 30, YEAR]

  /** Rows kept at every resolution. */
  const ROWS: int := 120

  /** Base step: as many updates as it takes to fill `ROWS` rows of the shortest period.
      The source computes it by true division, so its value there is the float 30.0. */
  const STEP: int := PERIODS[0] / ROWS

  /** The longest gap between samples before the store records UNKNOWN: a day. */
  const HEARTBEAT: int := 60 * 60 * 24

  /** The expected range of a measurement, in milliseconds. */
  const MIN: int := 0
  const MAX: int := 60 * 1000

  /** The set of tracked metric names. */
  function MetricSet(): (s: set<string>)
    ensures forall m :: m in s <==> m in METRICS
    ensures |s| == |METRICS| == 4
  {
    var s := set m | m in METRICS;
    assert s == {"responseStart", "firstPaint", "domComplete", "loadEventEnd"};
    s
  }

  /** `STEP` is a whole number: 3600 / 120 = 30. */
  lemma StepIsWhole()
    ensures STEP * ROWS == PERIODS[0] && STEP == 30
  {
  }

  /** The year period is a whole number of seconds, 31557600. */
  lemma YearIsWhole()
    ensures YEAR * 100 == 60 * 60 * 24 * 36525 && YEAR == 31557600
  {
  }

  /** Every period is a whole number of steps per row: `steps * ROWS * STEP == period`. */
  lemma PeriodsDivisible()
    ensures forall i :: 0 <= i < |PERIODS| ==> PERIODS[i] / ROWS / STEP * ROWS * STEP == PERIODS[i]
    ensures PERIODS[0] / ROWS / STEP == 1
    ensures PERIODS[4] / ROWS / STEP == 8766
  {
    StepIsWhole();
    YearIsWhole();
  }

  /** The metric names are four distinct strings, so a mapping keyed by them has four entries. */
  lemma MetricsDistinct()
    ensures |METRICS| == 4
    ensures forall i, j :: 0 <= i < j < |METRICS| ==> METRICS[i] != METRICS[j]
    ensures |MetricSet()| == 4
  {
  }

  /** The threshold is positive, so a metric that passes it has a non-empty list. */
  lemma ThresholdPositive()
    ensures SAMPLE_THRESHOLD >= 1
  {
  }

  /** The value range is non-empty and the heartbeat is a full day. */
  lemma RangeAndHeartbeat()
    ensures MIN < MAX && HEARTBEAT == 86400
  {
  }
}
