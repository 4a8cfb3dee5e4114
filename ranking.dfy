/**
 * `torch.topk(scores, k)` as both services use it: the indices of the `k`
 * largest scores, largest first. Ties may be broken either way, so the
 * contract is relational: `IsTopK` holds of every admissible answer.
 */
module Ranking {

  /** One entry of a classifier's answer: `{"class_name": ..., "confidence": ...}`. */
  datatype Prediction = Prediction(className: string, confidence: real)

  predicate Distinct(idx: seq<nat>)
  {
    forall a, b :: 0 <= a < b < |idx| ==> idx[a] != idx[b]
  }

  predicate InRange(idx: seq<nat>, n: nat)
  {
    forall j :: 0 <= j < |idx| ==> idx[j] < n
  }

  /** Scores along `idx` never increase. */
  predicate NonIncreasing(scores: seq<real>, idx: seq<nat>)
    requires InRange(idx, |scores|)
  {
    forall j :: 0 < j < |idx| ==> scores[idx[j - 1]] >= scores[idx[j]]
  }

  /** Every index left out scores at most every index taken. */
  predicate Dominates(scores: seq<real>, idx: seq<nat>)
    requires InRange(idx, |scores|)
  {
    forall i, j :: 0 <= i < |scores| && i !in idx && 0 <= j < |idx| ==> scores[i] <= scores[idx[j]]
  }

  /** `idx` is a valid answer of `torch.topk(scores, k)` (indices half). */
  predicate IsTopK(scores: seq<real>, k: nat, idx: seq<nat>)
  {
    && |idx| == k
    && InRange(idx, |scores|)
    && Distinct(idx)
    && NonIncreasing(scores, idx)
    && Dominates(scores, idx)
  }

  /** A repetition-free list of indices below `n` that is shorter than `n` misses one. */
  lemma {:induction false} MissingIndex(idx: seq<nat>, n: nat)
    requires |idx| < n && InRange(idx, n) && Distinct(idx)
    ensures exists i :: 0 <= i < n && i !in idx
  {
    if n - 1 in idx {
      var p :| 0 <= p < |idx| && idx[p] == n - 1;
      var rest := idx[..p] + idx[p + 1..];
      assert forall j :: 0 <= j < |rest| ==> rest[j] == (if j < p then idx[j] else idx[j + 1]);
      assert InRange(rest, n - 1);
      MissingIndex(rest, n - 1);
      var i :| 0 <= i < n - 1 && i !in rest;
      assert i !in idx;
    } else {
      assert 0 <= n - 1 < n;
    }
  }

  /** Selection: repeatedly take the best index not taken yet. */
  method TopK(scores: seq<real>, k: nat) returns (idx: seq<nat>)
    requires k <= |scores|
    ensures IsTopK(scores, k, idx)
  {
    idx := [];
    while |idx| < k
      invariant |idx| <= k
      invariant InRange(idx, |scores|) && Distinct(idx)
      invariant NonIncreasing(scores, idx) && Dominates(scores, idx)
    {
      MissingIndex(idx, |scores|);
      var best :| 0 <= best < |scores| && best !in idx;
      var i := 0;
      while i < |scores|
        invariant 0 <= i <= |scores|
        invariant 0 <= best < |scores| && best !in idx
        invariant forall j :: 0 <= j < i && j !in idx ==> scores[j] <= scores[best]
      {
        if i !in idx && scores[i] > scores[best] {
          best := i;
        }
        i := i + 1;
      }
      idx := idx + [best];
    }
  }
}
