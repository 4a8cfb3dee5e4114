/**
 * `run_inference` of the disease service: the three most probable classes
 * of the model's output, best first, with display names. Preprocessing, the
 * network and softmax are not modelled: the probability vector is an input.
 */
module DiseaseInference {
  import opened Wrappers
  import opened PyStr
  import opened Ranking

  /** How many classes `run_inference` reports. */
  const ReportedClasses: nat := 3

  /** `torch.topk(probabilities, 3)` raises when there are fewer than three classes. */
  datatype InferenceError = TooFewClasses

  /**
   * The loop of lines 17-22 after `torch.topk`: one entry per selected
   * index, in the order `topk` returns them, named by the display form of
   * `CLASS_NAMES[idx]` and scored by that index's probability.
   */
  method RunInference(probabilities: seq<real>, classNames: seq<string>)
    returns (r: Result<seq<Prediction>, InferenceError>)
    requires |probabilities| == |classNames|
    ensures r.Err? <==> |probabilities| < ReportedClasses
    ensures r.Ok? ==> |r.value| == ReportedClasses
    ensures r.Ok? ==> exists idx :: (IsTopK(probabilities, ReportedClasses, idx) &&
      forall j :: 0 <= j < |idx| ==> r.value[j] == Prediction(DisplayName(classNames[idx[j]]), probabilities[idx[j]]))
    ensures r.Ok? ==> forall j :: 0 < j < |r.value| ==> r.value[j - 1].confidence >= r.value[j].confidence
    ensures r.Ok? ==> forall j :: 0 <= j < |r.value| ==> '_' !in r.value[j].className
  {
    if |probabilities| < ReportedClasses {
      return Err(TooFewClasses);
    }
    var idx := TopK(probabilities, ReportedClasses);
    var results: seq<Prediction> := [];
    for j := 0 to |idx|
      invariant |results| == j
      invariant forall t :: 0 <= t < j ==> results[t] == Prediction(DisplayName(classNames[idx[t]]), probabilities[idx[t]])
    {
      results := results + [Prediction(DisplayName(classNames[idx[j]]), probabilities[idx[j]])];
    }
    assert IsTopK(probabilities, |results|, idx);
    return Ok(results);
  }
}
