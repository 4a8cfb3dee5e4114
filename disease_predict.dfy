/**
 * The disease service's HTTP endpoints: `/disease/health` and
 * `/disease/predict/`. The inference call is an uninterpreted function from
 * the body to an `InferenceOutcome`; the `processed_at` field is not
 * modelled (it is `None` while the module logger has no handler).
 */
module DiseasePredict {
  import opened Wrappers
  import opened PyStr
  import opened Ranking

  const ServiceName: string := "disease"

  datatype HealthReport =
    | Healthy(service: string, modelLoaded: bool)
    | Unhealthy(service: string, error: string)

  /** `health`: healthy, and saying so, exactly when the model object exists. */
  function Health(modelLoaded: bool): (r: HealthReport)
    ensures r.Healthy? <==> modelLoaded
    ensures r.Healthy? ==> r.modelLoaded
    ensures r.Unhealthy? ==> r.error == "Model is not loaded"
    ensures r.service == ServiceName
  {
    if modelLoaded then Healthy(ServiceName, true) else Unhealthy(ServiceName, "Model is not loaded")
  }

  /** What `run_inference(contents)` can do: return a list, or raise. */
  datatype InferenceOutcome = Inferred(predictions: seq<Prediction>) | InferenceRaised

  /** The cause behind an error response. */
  datatype Failure =
    | MissingFilename
    | UnsupportedFormat
    | EmptyFile
    | NoPredictions
    | InferenceFailed

  datatype ApiError = ApiError(status: int, failure: Failure)

  /** The `data` of a successful response. */
  datatype Answer = Answer(predictions: seq<Prediction>, filename: string)

  /** `filename.lower().endswith((".jpg", ".jpeg", ".png"))`: the only format check; no MIME type is consulted. */
  predicate AcceptedName(filename: string)
  {
    var lower := Lower(filename);
    EndsWith(lower, ".jpg") || EndsWith(lower, ".jpeg") || EndsWith(lower, ".png")
  }

  /** The name check ignores case: an upper-cased name is accepted exactly when the name is. */
  lemma AcceptedNameIgnoresCase(filename: string)
    ensures AcceptedName(Upper(filename)) <==> AcceptedName(filename)
  {
    LowerOfUpper(filename);
  }

  /** The checks of lines 50-62, made before the `try`: their statuses reach the client. */
  function FilenameCheck(filename: Option<string>): (r: Option<ApiError>)
    ensures (filename.None? || filename.value == "") ==> r == Some(ApiError(400, MissingFilename))
    ensures filename.Some? && filename.value != "" ==>
      (r.None? <==> AcceptedName(filename.value)) && (r.Some? ==> r.value == ApiError(415, UnsupportedFormat))
  {
    if filename.None? || filename.value == "" then Some(ApiError(400, MissingFilename))
    else if !AcceptedName(filename.value) then Some(ApiError(415, UnsupportedFormat))
    else None
  }

  /**
   * `predict_plant_disease` as the code is written: the 400 for an empty
   * body and the 422 for an empty result are raised inside the `try`, whose
   * `except Exception` turns every exception, these included, into 500.
   */
  function PredictPlantDisease(filename: Option<string>, body: Bytes, infer: Bytes -> InferenceOutcome)
    : (r: Result<Answer, ApiError>)
    ensures FilenameCheck(filename).Some? ==> r == Err(FilenameCheck(filename).value)
    ensures (r.Err? && r.error.status == 400) <==> (filename.None? || filename.value == "")
    ensures r.Ok? <==> FilenameCheck(filename).None? && body != [] && infer(body).Inferred? && infer(body).predictions != []
    ensures r.Ok? ==> r.value == Answer(infer(body).predictions, filename.value)
    ensures FilenameCheck(filename).None? && body == [] ==> r == Err(ApiError(500, EmptyFile))
    ensures r.Err? ==> r.error.status in {400, 415, 500}
  {
    match FilenameCheck(filename)
    case Some(e) => Err(e)
    case None =>
      if body == [] then Err(ApiError(500, EmptyFile))
      else
        match infer(body)
        case InferenceRaised => Err(ApiError(500, InferenceFailed))
        case Inferred(predictions) =>
          if predictions == [] then Err(ApiError(500, NoPredictions))
          else Ok(Answer(predictions, filename.value))
  }

  /** The endpoint as its raises intend: an empty body is a 400, an empty result a 422. */
  function PredictPlantDiseaseIntended(filename: Option<string>, body: Bytes, infer: Bytes -> InferenceOutcome)
    : (r: Result<Answer, ApiError>)
    ensures FilenameCheck(filename).Some? ==> r == Err(FilenameCheck(filename).value)
    ensures FilenameCheck(filename).None? && body == [] ==> r == Err(ApiError(400, EmptyFile))
    ensures FilenameCheck(filename).None? && body != [] && infer(body) == Inferred([]) ==>
      r == Err(ApiError(422, NoPredictions))
    ensures r.Ok? <==> FilenameCheck(filename).None? && body != [] && infer(body).Inferred? && infer(body).predictions != []
    ensures r.Ok? ==> r.value == Answer(infer(body).predictions, filename.value)
    ensures (r.Err? && r.error.status == 500) <==> FilenameCheck(filename).None? && body != [] && infer(body).InferenceRaised?
  {
    match FilenameCheck(filename)
    case Some(e) => Err(e)
    case None =>
      if body == [] then Err(ApiError(400, EmptyFile))
      else
        match infer(body)
        case InferenceRaised => Err(ApiError(500, InferenceFailed))
        case Inferred(predictions) =>
          if predictions == [] then Err(ApiError(422, NoPredictions))
          else Ok(Answer(predictions, filename.value))
  }

  /**
   * The discrepancy, on the smallest input: an empty `photo.jpg` is
   * answered 500 by the code and 400 by its intent.
   */
  lemma EmptyUploadAnswered500(filename: string, infer: Bytes -> InferenceOutcome)
    requires filename == "photo.jpg"
    ensures PredictPlantDisease(Some(filename), [], infer) == Err(ApiError(500, EmptyFile))
    ensures PredictPlantDiseaseIntended(Some(filename), [], infer) == Err(ApiError(400, EmptyFile))
  {
    assert Lower(filename) == filename;
    assert EndsWith(filename, ".jpg");
  }

  /** The other discrepancy: an empty inference result is answered 500, not 422. */
  lemma EmptyResultAnswered500(filename: Option<string>, body: Bytes, infer: Bytes -> InferenceOutcome)
    requires FilenameCheck(filename).None? && body != [] && infer(body) == Inferred([])
    ensures PredictPlantDisease(filename, body, infer) == Err(ApiError(500, NoPredictions))
    ensures PredictPlantDiseaseIntended(filename, body, infer) == Err(ApiError(422, NoPredictions))
  {
  }

  /** Apart from those two statuses the two versions answer alike. */
  lemma SameOutsideTheTry(filename: Option<string>, body: Bytes, infer: Bytes -> InferenceOutcome)
    ensures var a, b := PredictPlantDisease(filename, body, infer), PredictPlantDiseaseIntended(filename, body, infer);
      a.Ok? <==> b.Ok?
    ensures var a, b := PredictPlantDisease(filename, body, infer), PredictPlantDiseaseIntended(filename, body, infer);
      a.Ok? ==> a == b
    ensures var a, b := PredictPlantDisease(filename, body, infer), PredictPlantDiseaseIntended(filename, body, infer);
      a.Err? ==> a.error.failure == b.error.failure && (a.error.status == b.error.status || a.error.status == 500)
  {
  }

  /** Upper-case extensions are accepted: the name is lower-cased before the check. */
  lemma UpperCaseNameAccepted(filename: string)
    requires filename == "LEAF.JPG"
    ensures FilenameCheck(Some(filename)).None?
  {
    assert Lower(filename) == "leaf.jpg";
    assert EndsWith("leaf.jpg", ".jpg");
  }
}
