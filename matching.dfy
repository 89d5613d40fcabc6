/**
 * The nearest-match decision shared by the web app's frame loop and the
 * command-line logger. The detector and the embedding model are outside the
 * model: a frame reaches it as the list of Euclidean distances from the face's
 * embedding to each roster embedding, in roster order, or as a failure.
 */
module Matching {

  /** The name that stands for "nobody recognised". */
  const Unknown := "Unknown"
  /** Acceptance threshold of the web app. */
  const AppThreshold: real := 2.5
  /** Acceptance threshold of the command-line logger. */
  const ScriptThreshold: real := 1.2

  /**
   * One frame after the detector: `Failed` when anything in the `try` block raised
   * (no face found, a bad frame), otherwise the distances to each roster entry.
   */
  datatype Detection = Failed | Detected(distances: seq<real>)

  /** `k` is the first index at which `ds` takes its minimum. */
  ghost predicate IsFirstMinimum(ds: seq<real>, k: int) {
    && 0 <= k < |ds|
    && (forall j :: 0 <= j < |ds| ==> ds[k] <= ds[j])
    && (forall j :: 0 <= j < k ==> ds[k] < ds[j])
  }

  /** `np.argmin` (defined only on a non-empty list; on an empty one it raises). */
  function ArgMin(ds: seq<real>): (k: nat)
    requires |ds| > 0
    ensures IsFirstMinimum(ds, k)
  {
    if |ds| == 1 then 0
    else
      var k := ArgMin(ds[1..]);
      if ds[0] <= ds[k + 1] then 0 else k + 1
  }

  /** There is only one first minimum, so the tie-break is deterministic. */
  lemma FirstMinimumUnique(ds: seq<real>, k1: int, k2: int)
    requires IsFirstMinimum(ds, k1) && IsFirstMinimum(ds, k2)
    ensures k1 == k2
  {
    assert ds[k1] == ds[k2];
  }

  /**
   * The name a frame is recognised as. The nearest roster entry (first on ties) is
   * accepted when its distance is strictly below the threshold. A failed detection,
   * an empty roster (`np.argmin` raises) or an index past the name list (`IndexError`)
   * reaches the broad `except` and yields `Unknown`.
   */
  function Recognize(names: seq<string>, det: Detection, threshold: real): (r: string)
    ensures r == Unknown || r in names
    ensures det.Failed? || det.distances == [] ==> r == Unknown
    ensures det.Detected? ==> forall k :: IsFirstMinimum(det.distances, k) ==>
      r == if det.distances[k] < threshold && k < |names| then names[k] else Unknown
  {
    match det
    case Failed => Unknown
    case Detected(ds) =>
      if ds == [] then Unknown
      else
        var k := ArgMin(ds);
        if ds[k] < threshold then (if k < |names| then names[k] else Unknown) else Unknown
  }

  /** A face at or beyond the threshold from every roster entry is `Unknown`. */
  lemma FarFromEveryoneIsUnknown(names: seq<string>, ds: seq<real>, threshold: real)
    requires forall j :: 0 <= j < |ds| ==> ds[j] >= threshold
    ensures Recognize(names, Detected(ds), threshold) == Unknown
  {
    if ds != [] {
      var k := ArgMin(ds);
      assert ds[k] >= threshold;
    }
  }

  /**
   * A face at distance 0 from entry `i`, with no earlier entry also at distance 0,
   * is recognised as that entry (distances are norms, so none is negative).
   */
  lemma ExactMatchRecognized(names: seq<string>, ds: seq<real>, i: nat, threshold: real)
    requires |names| == |ds| && i < |ds|
    requires forall j :: 0 <= j < |ds| ==> ds[j] >= 0.0
    requires ds[i] == 0.0 && forall j :: 0 <= j < i ==> ds[j] > 0.0
    requires threshold > 0.0
    ensures Recognize(names, Detected(ds), threshold) == names[i]
  {
    assert IsFirstMinimum(ds, i);
  }
}
