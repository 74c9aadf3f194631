/** The feature vector of a process record, the linear forecast of its
    duration and the estimated completion time derived from it. */
module Forecasting {
  import opened LinearAlgebra
  import opened ProcessRecords

  /** Bias, retries, number of completed steps, priority ordinal, automation. */
  const NumFeatures: nat := 5

  /** The regression inputs of a record: [1, retries, |stepsCompleted|,
      priority ordinal, 1 if automated else 0]. */
  function FeatureVector(p: Process): (x: Vector)
    ensures |x| == NumFeatures
    ensures x[0] == 1.0
    ensures x[1] == p.retries as real && x[2] == |p.stepsCompleted| as real
    ensures 1.0 <= x[3] <= 3.0 && (x[4] == 1.0 <==> p.isAutomated) && (x[4] == 0.0 <==> !p.isAutomated)
  {
    [1.0, p.retries as real, |p.stepsCompleted| as real, PriorityValue(p.priority) as real,
     if p.isAutomated then 1.0 else 0.0]
  }

  /** Forecast duration in seconds: the dot product of the feature vector
      with the weights. */
  function Forecast(w: Vector, p: Process): (d: real)
    requires |w| == NumFeatures
    ensures d == w[0] + w[1] * p.retries as real + w[2] * |p.stepsCompleted| as real
               + w[3] * PriorityValue(p.priority) as real + w[4] * (if p.isAutomated then 1.0 else 0.0)
  {
    var x := FeatureVector(p);
    assert DotRange(x, w, 4, 5) == x[4] * w[4];
    assert DotRange(x, w, 2, 5) == x[2] * w[2] + (x[3] * w[3] + x[4] * w[4]);
    DotRange(x, w, 0, NumFeatures)
  }

  /** An unrecognised priority label is scored exactly like LOW. */
  lemma PriorityFallback(w: Vector, p: Process, tag: string)
    requires |w| == NumFeatures
    requires tag != "HIGH" && tag != "MEDIUM"
    ensures Forecast(w, p.(priority := tag)) == Forecast(w, p.(priority := "LOW"))
  {
  }

  /** Estimated completion time: the start time plus the forecast, truncated
      toward zero to whole seconds. */
  function PredictETA(w: Vector, p: Process): (eta: TimePoint)
    requires |w| == NumFeatures
    ensures (eta - p.startTime) % TicksPerSecond == 0
    ensures var s := (eta - p.startTime) / TicksPerSecond;
            var d := Forecast(w, p);
            (d >= 0.0 ==> s as real <= d < s as real + 1.0) &&
            (d < 0.0 ==> s as real - 1.0 < d <= s as real)
  {
    p.startTime + TruncateToInt(Forecast(w, p)) * TicksPerSecond
  }
}
