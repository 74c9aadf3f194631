/** Business process records and the scalar conversions the analyzer
    applies to them: the priority ordinal and the two truncations to whole
    seconds. */
module ProcessRecords {

  /** A reading of the system clock, counted in clock ticks. */
  type TimePoint = int

  /** Ticks of the system clock per second: the clock counts nanoseconds. */
  const TicksPerSecond: int := 1_000_000_000

  /** One business process instance. Only the fields the analyzer reads are
      kept; of the completed steps only their number matters. */
  datatype Process = Process(
    priority: string,
    startTime: TimePoint,
    endTime: TimePoint,
    status: string,
    stepsCompleted: seq<string>,
    retries: int,
    isAutomated: bool)

  /** Ordinal of a priority label; any label other than HIGH and MEDIUM,
      including an unrecognised one, ranks lowest. */
  function PriorityValue(p: string): (v: int)
    ensures 1 <= v <= 3
    ensures v == 3 <==> p == "HIGH"
    ensures v == 2 <==> p == "MEDIUM"
  {
    if p == "HIGH" then 3
    else if p == "MEDIUM" then 2
    else 1
  }

  /** Elapsed whole seconds from start to end: the tick difference divided by
      TicksPerSecond, truncated toward zero (not floored). */
  function ToSeconds(start: TimePoint, end: TimePoint): (s: int)
    ensures end - start >= 0 ==> s * TicksPerSecond <= end - start < s * TicksPerSecond + TicksPerSecond
    ensures end - start < 0 ==> s * TicksPerSecond - TicksPerSecond < end - start <= s * TicksPerSecond
  {
    var d := end - start;
    if d >= 0 then d / TicksPerSecond else -((-d) / TicksPerSecond)
  }

  /** Because the division truncates toward zero, swapping the two time
      points only flips the sign of the result. */
  lemma ToSecondsAntisymmetric(start: TimePoint, end: TimePoint)
    ensures ToSeconds(end, start) == -ToSeconds(start, end)
  {
  }

  /** One and a half seconds backwards count as -1 second, not -2. */
  lemma ToSecondsTruncatesNegative()
    ensures ToSeconds(1_500_000_000, 0) == -1
  {
  }

  /** Conversion of a real to an integer that drops the fractional part,
      rounding toward zero. */
  function TruncateToInt(x: real): (n: int)
    ensures x >= 0.0 ==> n as real <= x < n as real + 1.0
    ensures x < 0.0 ==> n as real - 1.0 < x <= n as real
  {
    if x >= 0.0 then x.Floor else -((-x).Floor)
  }

  lemma TruncateToIntOdd(x: real)
    ensures TruncateToInt(-x) == -TruncateToInt(x)
  {
  }
}
