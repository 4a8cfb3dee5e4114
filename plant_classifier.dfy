/**
 * The plant classifier's own logic: reading the class-name file and turning
 * the model's score vector into the top-k prediction list. The network,
 * image preprocessing and softmax are not modelled: `Predict` receives the
 * probability vector the model produced.
 */
module PlantClassifier {
  import opened Wrappers
  import opened PyStr
  import opened Ranking

  /** Why `predict` raised (the `top_k` argument `torch.topk` refuses). */
  datatype PredictError = NegativeTopK

  function Concat(parts: seq<string>): string
  {
    if parts == [] then [] else parts[0] + Concat(parts[1..])
  }

  /** Length of the first line of `text`, its `'\n'` included when there is one. */
  function FirstLineLength(text: string): (n: nat)
    requires text != []
    ensures 0 < n <= |text|
    ensures text[n - 1] == '\n' || n == |text|
    ensures forall p :: 0 <= p < n - 1 ==> text[p] != '\n'
  {
    if text[0] == '\n' || |text| == 1 then 1 else 1 + FirstLineLength(text[1..])
  }

  /**
   * `f.readlines()` on the decoded text: pieces that each end in a line
   * break, except possibly the last, which then is the non-empty tail.
   */
  function ReadLines(text: string): (lines: seq<string>)
    ensures Concat(lines) == text
    ensures forall j :: 0 <= j < |lines| ==> lines[j] != []
    ensures forall j :: 0 <= j < |lines| - 1 ==> lines[j][|lines[j]| - 1] == '\n'
    ensures forall j, p :: 0 <= j < |lines| && 0 <= p < |lines[j]| - 1 ==> lines[j][p] != '\n'
    decreases |text|
  {
    if text == [] then []
    else
      var n := FirstLineLength(text);
      var rest := ReadLines(text[n..]);
      assert text == text[..n] + text[n..];
      assert ([text[..n]] + rest)[1..] == rest;
      [text[..n]] + rest
  }

  /** A line whose only line break (if any) is its last character loses it to `strip()`. */
  lemma StrippedLineHasNoBreak(line: string)
    requires forall p :: 0 <= p < |line| - 1 ==> line[p] != '\n'
    ensures '\n' !in Strip(line)
  {
    var r := Strip(line);
    var a := LeadingSpaces(line);
    forall i | 0 <= i < |r| ensures r[i] != '\n' {
      if i < |r| - 1 {
        assert r[i] == line[a + i];
      } else {
        assert !IsSpace(r[|r| - 1]);
      }
    }
  }

  /**
   * `_load_class_names`: one name per line of the file, in file order,
   * each stripped; no name keeps surrounding whitespace or a line break.
   */
  function LoadClassNames(text: string): (names: seq<string>)
    ensures |names| == |ReadLines(text)|
    ensures forall j :: 0 <= j < |names| ==> names[j] == Strip(ReadLines(text)[j])
    ensures forall j :: 0 <= j < |names| ==> Trimmed(names[j]) && '\n' !in names[j]
  {
    var lines := ReadLines(text);
    forall j | 0 <= j < |lines| ensures '\n' !in Strip(lines[j]) {
      StrippedLineHasNoBreak(lines[j]);
    }
    seq(|lines|, j requires 0 <= j < |lines| => Strip(lines[j]))
  }

  /** The clamp of `predict`: `top_k` is lowered to the number of classes, never raised. */
  function ClampTopK(topK: int, numClasses: nat): (k: int)
    ensures k <= topK && k <= numClasses
    ensures k == topK || k == numClasses
  {
    if topK > numClasses then numClasses else topK
  }

  class Classifier {
    const classNames: seq<string>
    /** `num_classes`, the width of the model's output layer. */
    const numClasses: nat := |classNames|

    /** `__init__`: the class names come from the class-name file; the model is not modelled. */
    constructor(classNamesText: string)
      ensures classNames == LoadClassNames(classNamesText)
      ensures numClasses == |classNames|
    {
      classNames := LoadClassNames(classNamesText);
    }

    /**
     * `predict` given the model's probabilities: `min(top_k, num_classes)`
     * entries, the best-scoring classes first, each naming the class at the
     * selected index with that index's score. A negative `top_k` makes
     * `torch.topk` raise.
     */
    method Predict(scores: seq<real>, topK: int) returns (r: Result<seq<Prediction>, PredictError>)
      requires |scores| == numClasses
      ensures r.Err? <==> topK < 0
      ensures r.Ok? ==> |r.value| == ClampTopK(topK, numClasses)
      ensures r.Ok? ==> exists idx :: (IsTopK(scores, |r.value|, idx) &&
        forall j :: 0 <= j < |idx| ==> r.value[j] == Prediction(classNames[idx[j]], scores[idx[j]]))
      ensures r.Ok? ==> forall j :: 0 < j < |r.value| ==> r.value[j - 1].confidence >= r.value[j].confidence
    {
      var k := ClampTopK(topK, numClasses);
      if k < 0 {
        return Err(NegativeTopK);
      }
      var idx := TopK(scores, k);
      var predictions: seq<Prediction> := [];
      for j := 0 to |idx|
        invariant |predictions| == j
        invariant forall t :: 0 <= t < j ==> predictions[t] == Prediction(classNames[idx[t]], scores[idx[t]])
      {
        predictions := predictions + [Prediction(classNames[idx[j]], scores[idx[j]])];
      }
      assert IsTopK(scores, |predictions|, idx);
      return Ok(predictions);
    }
  }
}
