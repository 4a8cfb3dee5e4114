/**
 * The `/classify` endpoint of the plant classifier service: admission of an
 * upload by content type or file extension, the size limit, the display
 * formatting of predictions and the mapping of failures to HTTP statuses.
 *
 * The classifier call is an uninterpreted function from the body to a
 * `ServiceOutcome`. The upload stream is its full body.
 */
module ClassifierRouter {
  import opened Wrappers
  import opened PyStr
  import opened Ranking

  /** `MAX_FILE_SIZE`: 10 MiB. */
  const MaxFileSize: nat := 10 * 1024 * 1024

  /** `ALLOWED_FORMATS`: MIME type to extensions, in dictionary order. */
  const AllowedFormats: seq<(string, seq<string>)> := [
    ("image/jpeg", [".jpg", ".jpeg"]),
    ("image/png", [".png"]),
    ("image/webp", [".webp"]),
    ("image/heic", [".heic", ".heif"])
  ]

  /** `content_type in ALLOWED_FORMATS`; a missing content type is not a key. */
  predicate AllowedContentType(contentType: Option<string>)
  {
    contentType.Some? && exists i :: 0 <= i < |AllowedFormats| && AllowedFormats[i].0 == contentType.value
  }

  // ---------------------------------------------------------------- pathlib

  /**
   * `PurePosixPath(path).name`: the last component, where empty components
   * and `.` components do not count; `""` when there is none.
   */
  function Name(path: string): (r: string)
    ensures '/' !in r && r != "."
    decreases |path|
  {
    var i := RFind(path, '/');
    var last := path[i + 1..];
    if last != "" && last != "." then last
    else if i < 0 then ""
    else Name(path[..i])
  }

  /** A plain file name (no `/`, not `""` or `.`) is its own name, after any directory part. */
  lemma NameOfPlainFile(dir: string, base: string)
    requires '/' !in base && base != "" && base != "."
    ensures Name(base) == base
    ensures Name(dir + "/" + base) == base
  {
    var p := dir + "/" + base;
    forall j | |dir| < j < |p| ensures p[j] != '/' {
      assert p[j] == base[j - |dir| - 1];
    }
    RFindAt(p, '/', |dir|);
    assert p[|dir| + 1..] == base;
  }

  /**
   * `PurePath.suffix`: from the last `.` of the name on, provided that dot is
   * neither the first nor the last character; `""` otherwise.
   */
  function Suffix(name: string): (r: string)
    ensures r == [] || (2 <= |r| < |name| && EndsWith(name, r) && r[0] == '.' && '.' !in r[1..])
    ensures '.' !in name ==> r == []
  {
    var i := RFind(name, '.');
    if 0 < i < |name| - 1 then name[i..] else ""
  }

  /** The suffix of `stem + "." + rest` is `"." + rest` when the stem is not empty and `rest` has no dot. */
  lemma SuffixOf(stem: string, rest: string)
    requires stem != [] && rest != [] && '.' !in rest
    ensures Suffix(stem + "." + rest) == "." + rest
  {
    var name := stem + "." + rest;
    forall j | |stem| < j < |name| ensures name[j] != '.' {
      assert name[j] == rest[j - |stem| - 1];
    }
    RFindAt(name, '.', |stem|);
    assert name[|stem|..] == "." + rest;
  }

  /** `any(ext in extensions for extensions in ALLOWED_FORMATS.values())`. */
  predicate AllowedExtension(ext: string)
  {
    exists i :: 0 <= i < |AllowedFormats| && ext in AllowedFormats[i].1
  }

  /** `is_valid_extension`: the lower-cased suffix is one of the allowed extensions. */
  predicate IsValidExtension(filename: string)
  {
    AllowedExtension(Lower(Suffix(Name(filename))))
  }

  /** The allowed extensions, written out. */
  lemma AllowedExtensionIff(ext: string)
    ensures AllowedExtension(ext) <==> ext in [".jpg", ".jpeg", ".png", ".webp", ".heic", ".heif"]
  {
    if AllowedExtension(ext) {
      var i :| 0 <= i < |AllowedFormats| && ext in AllowedFormats[i].1;
      assert i == 0 || i == 1 || i == 2 || i == 3;
    } else {
      assert ext !in AllowedFormats[0].1;
      assert ext !in AllowedFormats[1].1;
      assert ext !in AllowedFormats[2].1;
      assert ext !in AllowedFormats[3].1;
    }
  }

  /**
   * For a plain file name, validity depends on its final extension alone,
   * in any letter case.
   */
  lemma {:induction false} ExtensionOfPlainFile(stem: string, rest: string)
    requires stem != [] && rest != [] && '.' !in rest && '/' !in stem && '/' !in rest
    ensures IsValidExtension(stem + "." + rest) <==>
      Lower("." + rest) in [".jpg", ".jpeg", ".png", ".webp", ".heic", ".heif"]
  {
    var f := stem + "." + rest;
    assert '/' !in f by {
      assert forall k :: 0 <= k < |f| ==> f[k] == (if k < |stem| then stem[k] else if k == |stem| then '.' else rest[k - |stem| - 1]);
    }
    assert f != "." by {
      assert |f| >= 3;
    }
    NameOfPlainFile("", f);
    SuffixOf(stem, rest);
    AllowedExtensionIff(Lower("." + rest));
  }

  /** `A.JPG` is accepted: the suffix is lower-cased before the lookup. */
  lemma UpperCaseExtensionAccepted(filename: string)
    requires filename == "A.JPG"
    ensures IsValidExtension(filename)
  {
    assert filename == "A" + "." + "JPG";
    assert Lower(".JPG") == ".jpg";
    ExtensionOfPlainFile("A", "JPG");
  }

  /** `<stem>.jpg.exe` is refused: only the last suffix counts. */
  lemma DoubleExtensionRejected(stem: string)
    requires stem != [] && '/' !in stem
    ensures !IsValidExtension(stem + ".jpg.exe")
  {
    var front, rest := stem + ".jpg", "exe";
    assert stem + ".jpg.exe" == front + "." + rest;
    assert '/' !in front by {
      assert forall k :: 0 <= k < |front| ==> front[k] == (if k < |stem| then stem[k] else ".jpg"[k - |stem|]);
    }
    assert '.' !in rest && '/' !in rest;
    assert Lower("." + rest) == ".exe";
    ExtensionOfPlainFile(front, rest);
  }

  /** `.jpg` is refused: a leading dot starts a hidden name, not a suffix. */
  lemma DotFileRejected(filename: string)
    requires filename == ".jpg"
    ensures !IsValidExtension(filename)
  {
    NameOfPlainFile("", filename);
    RFindAt(filename, '.', 0);
    assert Suffix(filename) == "";
    AllowedExtensionIff("");
  }

  // ---------------------------------------------------------------- the 415 detail

  function DropFirst(s: string): string
  {
    if s == [] then [] else s[1..]
  }

  /** `[ext[1:].upper() for ext in exts]`. */
  function Labels(exts: seq<string>): seq<string>
  {
    if exts == [] then [] else [Upper(DropFirst(exts[0]))] + Labels(exts[1..])
  }

  /** `[ext[1:].upper() for exts in formats.values() for ext in exts]`. */
  function FormatLabels(formats: seq<(string, seq<string>)>): seq<string>
  {
    if formats == [] then [] else Labels(formats[0].1) + FormatLabels(formats[1..])
  }

  // The labels of each group of extensions: the extension without its dot, upper-cased.
  // One lemma per group keeps each literal computation small.

  lemma JpegLabels() ensures Labels([".jpg", ".jpeg"]) == ["JPG", "JPEG"]
  {
    assert Upper("jpg") == "JPG";
    assert Upper("jpeg") == "JPEG";
  }

  lemma PngLabels() ensures Labels([".png"]) == ["PNG"]
  {
    assert Upper("png") == "PNG";
  }

  lemma WebpLabels() ensures Labels([".webp"]) == ["WEBP"]
  {
    assert Upper("webp") == "WEBP";
  }

  lemma HeicLabels() ensures Labels([".heic", ".heif"]) == ["HEIC", "HEIF"]
  {
    assert Upper("heic") == "HEIC";
    assert Upper("heif") == "HEIF";
  }

  /** The supported formats named in the 415 detail, in dictionary order. */
  lemma SupportedFormatsListed()
    ensures FormatLabels(AllowedFormats) == ["JPG", "JPEG", "PNG", "WEBP", "HEIC", "HEIF"]
  {
    JpegLabels();
    PngLabels();
    WebpLabels();
    HeicLabels();
    var formats := AllowedFormats;
    assert FormatLabels(formats[3..]) == ["HEIC", "HEIF"] + FormatLabels(formats[4..]);
    assert FormatLabels(formats[2..]) == ["WEBP"] + FormatLabels(formats[3..]);
    assert FormatLabels(formats[1..]) == ["PNG"] + FormatLabels(formats[2..]);
  }

  function UnsupportedFormatDetail(): string
  {
    "Неверный формат файла. Поддерживаемые форматы: " + Join(FormatLabels(AllowedFormats), ", ")
  }

  // ---------------------------------------------------------------- the endpoint

  /** What `plant_service.classify_plant(contents)` can do. */
  datatype ServiceOutcome =
    | Classified(predictions: seq<Prediction>)
    | ImageProcessingFailed   // raises ImageProcessingError
    | ClassificationFailed    // raises ClassificationError
    | ServiceCrashed          // raises anything else

  /** One entry of the response's `predictions`. */
  datatype FormattedPrediction = FormattedPrediction(name: string, confidence: real)

  datatype Failure =
    | UnsupportedMediaType(detail: string)
    | PayloadTooLarge
    | MissingFilename     // `Path(None)` raises TypeError outside every handler
    | ImageProcessing
    | Classification
    | Internal

  datatype ApiError = ApiError(status: int, failure: Failure)

  /**
   * The guard of lines 49-50: the upload is admitted when its content type
   * is allowed, or else when its file name has a valid extension.
   */
  function Admission(contentType: Option<string>, filename: Option<string>): (r: Option<ApiError>)
    ensures r.None? <==> AllowedContentType(contentType) || (filename.Some? && IsValidExtension(filename.value))
    ensures r.Some? && filename.Some? ==> r.value == ApiError(415, UnsupportedMediaType(UnsupportedFormatDetail()))
    ensures r.Some? && filename.None? ==> r.value == ApiError(500, MissingFilename)
  {
    if AllowedContentType(contentType) then None
    else if filename.None? then Some(ApiError(500, MissingFilename))
    else if IsValidExtension(filename.value) then None
    else Some(ApiError(415, UnsupportedMediaType(UnsupportedFormatDetail())))
  }

  /** The response list: same length and order, display names, confidences in percent. */
  function FormatPredictions(predictions: seq<Prediction>): (r: seq<FormattedPrediction>)
    ensures |r| == |predictions|
    ensures forall j :: 0 <= j < |r| ==>
      r[j].name == DisplayName(predictions[j].className) && r[j].confidence == predictions[j].confidence * 100.0
    ensures forall j :: 0 <= j < |r| ==> |r[j].name| == |predictions[j].className| && '_' !in r[j].name
  {
    seq(|predictions|, j requires 0 <= j < |predictions| =>
      FormattedPrediction(DisplayName(predictions[j].className), predictions[j].confidence * 100.0))
  }

  /** Lines 92-117: how a failure of the classifier call reaches the client. */
  function ServiceError(outcome: ServiceOutcome): (e: ApiError)
    requires !outcome.Classified?
    ensures outcome.ImageProcessingFailed? <==> e.status == 400
    ensures e.status == 400 || e.status == 500
  {
    match outcome
    case ImageProcessingFailed => ApiError(400, ImageProcessing)
    case ClassificationFailed => ApiError(500, Classification)
    case ServiceCrashed => ApiError(500, Internal)
  }

  /**
   * `classify_plant` as the code is written. Line 75 awaits the list that
   * the synchronous service returns, which raises TypeError; the outer
   * `except Exception` turns it into 500, so no request succeeds.
   */
  function ClassifyPlantAsWritten(contentType: Option<string>, filename: Option<string>, body: Bytes,
                                  service: Bytes -> ServiceOutcome): (r: Result<seq<FormattedPrediction>, ApiError>)
    ensures r.Err?
    ensures Admission(contentType, filename).None? && |body| <= MaxFileSize && service(body).Classified? ==>
      r == Err(ApiError(500, Internal))
  {
    match Admission(contentType, filename)
    case Some(e) => Err(e)
    case None =>
      if |body| > MaxFileSize then Err(ApiError(413, PayloadTooLarge))
      else
        match service(body)
        case Classified(_) => Err(ApiError(500, Internal))
        case other => Err(ServiceError(other))
  }

  /**
   * `classify_plant` with the classifier's result used as a value: admission,
   * then the size limit, then the classifier, whose predictions are
   * formatted in order.
   */
  function ClassifyPlant(contentType: Option<string>, filename: Option<string>, body: Bytes,
                         service: Bytes -> ServiceOutcome): (r: Result<seq<FormattedPrediction>, ApiError>)
    ensures Admission(contentType, filename).Some? ==> r == Err(Admission(contentType, filename).value)
    ensures (r.Err? && r.error.status == 415) <==>
      !AllowedContentType(contentType) && filename.Some? && !IsValidExtension(filename.value)
    ensures (r.Err? && r.error.status == 413) <==>
      Admission(contentType, filename).None? && |body| > MaxFileSize
    ensures r.Ok? <==>
      Admission(contentType, filename).None? && |body| <= MaxFileSize && service(body).Classified?
    ensures r.Ok? ==> r.value == FormatPredictions(service(body).predictions)
    ensures (r.Err? && r.error.status == 400) <==>
      Admission(contentType, filename).None? && |body| <= MaxFileSize && service(body).ImageProcessingFailed?
    ensures r.Err? ==> r.error.status in {400, 413, 415, 500}
  {
    match Admission(contentType, filename)
    case Some(e) => Err(e)
    case None =>
      if |body| > MaxFileSize then Err(ApiError(413, PayloadTooLarge))
      else
        match service(body)
        case Classified(predictions) => Ok(FormatPredictions(predictions))
        case other => Err(ServiceError(other))
  }

  /**
   * The discrepancy: for every upload that passes admission and the size
   * limit and that the classifier handles, the code as written answers 500
   * where the corrected endpoint answers with the predictions.
   */
  lemma AwaitedResultFails(contentType: Option<string>, filename: Option<string>, body: Bytes,
                           service: Bytes -> ServiceOutcome)
    requires Admission(contentType, filename).None? && |body| <= MaxFileSize && service(body).Classified?
    ensures ClassifyPlantAsWritten(contentType, filename, body, service) == Err(ApiError(500, Internal))
    ensures ClassifyPlant(contentType, filename, body, service).Ok?
  {
  }

  /** Both versions agree on every request the classifier does not answer. */
  lemma AsWrittenAgreesOnFailures(contentType: Option<string>, filename: Option<string>, body: Bytes,
                                  service: Bytes -> ServiceOutcome)
    requires !service(body).Classified?
    ensures ClassifyPlantAsWritten(contentType, filename, body, service) == ClassifyPlant(contentType, filename, body, service)
  {
  }
}
