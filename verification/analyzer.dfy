/** The analyzer itself: the stored process records, which only grow, and
    the regression weights, which start at zero and are replaced wholesale
    by training. */
module Analyzer {
  import opened LinearAlgebra
  import opened ProcessRecords
  import opened Forecasting
  import opened GaussianElimination
  import opened Training

  class BusinessProcessAnalyzer {
    var processes: seq<Process>
    var weights: Vector

    /** One weight per feature. */
    ghost predicate Valid()
      reads this
    {
      |weights| == NumFeatures
    }

    /** No records, and all five weights zero. */
    constructor()
      ensures Valid() && processes == [] && weights == Zeros(NumFeatures)
    {
      processes := [];
      weights := Zeros(NumFeatures);
    }

    /** Appends a record; the weights are not retrained. */
    method AddProcess(p: Process)
      modifies this
      ensures processes == old(processes) + [p] && weights == old(weights)
    {
      processes := processes + [p];
    }

    /** The forecast duration of a record under the current weights; before
        any training it is zero. */
    function ForecastDuration(p: Process): (d: real)
      reads this
      requires Valid()
      ensures d == Forecast(weights, p)
      ensures weights == Zeros(NumFeatures) ==> d == 0.0
    {
      Forecast(weights, p)
    }

    /** The estimated completion time of a record under the current weights;
        before any training it is the record's start time. */
    function PredictETA(p: Process): (eta: TimePoint)
      reads this
      requires Valid()
      ensures eta == Forecasting.PredictETA(weights, p)
      ensures weights == Zeros(NumFeatures) ==> eta == p.startTime
    {
      Forecasting.PredictETA(weights, p)
    }

    /** Least-squares training on the completed records. With none, the
        weights stay as they are. Otherwise the weights become the solution
        of the normal equations  XᵀX · w = Xᵀy, and the only one. */
    method TrainForecastModel()
      requires Valid()
      requires Completed(processes) == [] || NonzeroPivots(NormalSystem(processes), 0)
      modifies this
      ensures Valid() && processes == old(processes)
      ensures Completed(processes) == [] ==> weights == old(weights)
      ensures Completed(processes) != [] ==> Solves(NormalSystem(processes), weights)
      ensures Completed(processes) != [] ==>
                forall v :: Solves(NormalSystem(processes), v) ==> v == weights
    {
      var X, y := BuildTrainingSet(processes);
      if |X| == 0 {
        return;
      }
      FitSystemIsNormalSystem(processes, X, y);
      var w := Fit(X, y);
      weights := w;
    }
  }
}
