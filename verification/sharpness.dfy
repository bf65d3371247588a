/**
 * Focus scoring and the choice of the sharpest frame of a burst. The score
 * itself (variance of the Laplacian of a grayscale copy) is a foreign
 * floating-point computation and enters the model as a parameter `score`.
 */
module Sharpness {
  import opened Wrappers

  /** Default threshold of `is_image_in_focus`. */
  const FocusThreshold: real := 100.0

  /**
   * `is_image_in_focus`: the in-focus flag and the variance it was computed
   * from. The selection loop keeps only the variance, which is what `score`
   * stands for; `Capture.SavedFramesInFocus` states what the dropped flag is.
   */
  function FocusCheck(variance: real, threshold: real): (bool, real)
  {
    (variance > threshold, variance)
  }

  /** The running best of the selection loop: its score and the position of its frame. */
  datatype Selection = Selection(best: real, index: Option<nat>)

  /**
   * The selection loop over the first `n` frames: the best score starts at 0
   * and is replaced only by a strictly greater score, so the earliest of equal
   * maxima wins and no frame is chosen when no score is positive.
   */
  function Scan<F>(frames: seq<F>, score: F -> real, n: nat): (r: Selection)
    requires n <= |frames|
    ensures r.best >= 0.0
    ensures forall j :: 0 <= j < n ==> score(frames[j]) <= r.best
    ensures r.index.None? <==> forall j :: 0 <= j < n ==> score(frames[j]) <= 0.0
    ensures r.index.None? ==> r.best == 0.0
    ensures r.index.Some? ==>
      && r.index.value < n
      && score(frames[r.index.value]) == r.best
      && forall j :: 0 <= j < r.index.value ==> score(frames[j]) < r.best
    decreases n
  {
    if n == 0 then Selection(0.0, None)
    else
      var prev := Scan(frames, score, n - 1);
      var s := score(frames[n - 1]);
      if s > prev.best then Selection(s, Some(n - 1)) else prev
  }

  predicate SomeScoreAbove<F>(frames: seq<F>, score: F -> real, t: real) {
    exists i :: 0 <= i < |frames| && score(frames[i]) > t
  }

  function Sharpest<F>(frames: seq<F>, score: F -> real): Selection {
    Scan(frames, score, |frames|)
  }
}
