/**
 * The burst sampler: once a capture opens, pull up to ten more cycles from the
 * device queues and keep the high-resolution frame of every cycle whose
 * tracklets still contain a bird, stopping as soon as five frames are kept.
 */
module Burst {
  import opened Wrappers
  import opened Labels

  const MaxAttempts: nat := 10
  const TargetSamples: nat := 5

  /** One cycle of the device queues: the tracklets and the high-resolution frame. */
  datatype Pull<F> = Pull(tracklets: seq<Tracklet>, frame: F)

  /** The queues block until data arrives, so the source is an endless stream. */
  type Source<F> = nat -> Pull<F>

  datatype BurstResult<F> =
    | Collected(frames: seq<F>, attempts: nat)
    | Raised(attempt: nat, error: LookupError)

  /** The `k`-th pull of a burst that starts at `pos`. */
  function At<F>(src: Source<F>, pos: nat, k: nat): Pull<F> {
    src(pos + k)
  }

  /** The re-check of this pull found a bird, so its frame joins the batch. */
  predicate Keeps<F>(p: Pull<F>) {
    RecheckBird(p.tracklets) == Ok(true)
  }

  /** The re-check of this pull raised `IndexError`. */
  predicate Raises<F>(p: Pull<F>) {
    RecheckBird(p.tracklets).Err?
  }

  /** Reference definition: the kept frames among pulls `pos .. pos+n-1`, in pull order. */
  function Kept<F>(src: Source<F>, pos: nat, n: nat): seq<F>
    decreases n
  {
    if n == 0 then []
    else Kept(src, pos, n - 1) + (if Keeps(At(src, pos, n - 1)) then [At(src, pos, n - 1).frame] else [])
  }

  /** The offsets (relative to `pos`) of the pulls whose frames `Kept` holds. */
  function KeptOffsets<F>(src: Source<F>, pos: nat, n: nat): seq<nat>
    decreases n
  {
    if n == 0 then []
    else KeptOffsets(src, pos, n - 1) + (if Keeps(At(src, pos, n - 1)) then [n - 1] else [])
  }

  /** Nothing before pull `n` raised and the batch was still short of five frames. */
  predicate StillSampling<F>(src: Source<F>, pos: nat, n: nat)
    decreases n
  {
    n == 0 ||
      (StillSampling(src, pos, n - 1) && !Raises(At(src, pos, n - 1))
       && |Kept(src, pos, n - 1)| < TargetSamples)
  }

  lemma {:induction false} StillSamplingMeans<F>(src: Source<F>, pos: nat, n: nat)
    requires StillSampling(src, pos, n)
    ensures forall k :: 0 <= k < n ==> !Raises(At(src, pos, k)) && |Kept(src, pos, k)| < TargetSamples
    decreases n
  {
    if n > 0 {
      StillSamplingMeans(src, pos, n - 1);
    }
  }

  /** The `while` loop of the burst, one iteration per call. */
  function Loop<F>(src: Source<F>, pos: nat, batch: seq<F>, attempts: nat): (r: BurstResult<F>)
    requires attempts <= MaxAttempts
    requires batch == Kept(src, pos, attempts)
    requires StillSampling(src, pos, attempts)
    ensures r.Collected? ==>
      && attempts <= r.attempts <= MaxAttempts
      && r.frames == Kept(src, pos, r.attempts)
      && (|r.frames| == TargetSamples || r.attempts == MaxAttempts)
      && StillSampling(src, pos, r.attempts)
    ensures r.Raised? ==>
      && attempts <= r.attempt < MaxAttempts
      && RecheckBird(At(src, pos, r.attempt).tracklets) == Err(r.error)
      && StillSampling(src, pos, r.attempt)
      && |Kept(src, pos, r.attempt)| < TargetSamples
    decreases MaxAttempts - attempts
  {
    if |batch| < TargetSamples && attempts < MaxAttempts then
      var p := At(src, pos, attempts);
      match RecheckBird(p.tracklets)
      case Err(e) => Raised(attempts, e)
      case Ok(found) =>
        Loop(src, pos, if found then batch + [p.frame] else batch, attempts + 1)
    else
      KeptBounded(src, pos, attempts);
      Collected(batch, attempts)
  }

  lemma {:induction false} KeptBounded<F>(src: Source<F>, pos: nat, n: nat)
    requires StillSampling(src, pos, n)
    ensures |Kept(src, pos, n)| <= TargetSamples
    ensures |Kept(src, pos, n)| <= n
    decreases n
  {
    if n > 0 {
      KeptBounded(src, pos, n - 1);
    }
  }

  /**
   * The burst that follows a detection, reading pulls `pos, pos+1, ...`.
   * It makes at most ten pulls and keeps at most five frames, never more
   * frames than pulls; it stops exactly when five frames are kept or ten
   * pulls are used. The frames are those of the pulls whose re-check found
   * a bird, in pull order. A re-check that raises ends the burst with the error.
   */
  function Run<F>(src: Source<F>, pos: nat): (r: BurstResult<F>)
    ensures r.Collected? ==>
      && r.attempts <= MaxAttempts
      && |r.frames| <= TargetSamples
      && |r.frames| <= r.attempts
      && (|r.frames| == TargetSamples || r.attempts == MaxAttempts)
      && r.frames == Kept(src, pos, r.attempts)
      && forall k :: 0 <= k < r.attempts ==> !Raises(At(src, pos, k)) && |Kept(src, pos, k)| < TargetSamples
    ensures r.Raised? ==>
      && r.attempt < MaxAttempts
      && RecheckBird(At(src, pos, r.attempt).tracklets) == Err(r.error)
      && |Kept(src, pos, r.attempt)| < TargetSamples
      && forall k :: 0 <= k < r.attempt ==> !Raises(At(src, pos, k)) && |Kept(src, pos, k)| < TargetSamples
  {
    var r := Loop(src, pos, [], 0);
    if r.Collected? then
      KeptBounded(src, pos, r.attempts);
      StillSamplingMeans(src, pos, r.attempts);
      r
    else
      StillSamplingMeans(src, pos, r.attempt);
      r
  }

  /**
   * `Kept` holds exactly the frames of the pulls that kept a bird, each once
   * and in the order they were pulled.
   */
  lemma {:induction false} KeptInPullOrder<F>(src: Source<F>, pos: nat, n: nat)
    ensures |Kept(src, pos, n)| == |KeptOffsets(src, pos, n)|
    ensures var ks, os := Kept(src, pos, n), KeptOffsets(src, pos, n);
      forall i :: 0 <= i < |os| ==> os[i] < n && Keeps(At(src, pos, os[i])) && ks[i] == At(src, pos, os[i]).frame
    ensures var os := KeptOffsets(src, pos, n);
      forall i, j :: 0 <= i < j < |os| ==> os[i] < os[j]
    ensures forall k :: 0 <= k < n && Keeps(At(src, pos, k)) ==> k in KeptOffsets(src, pos, n)
    decreases n
  {
    if n > 0 {
      KeptInPullOrder(src, pos, n - 1);
      var ks, os := Kept(src, pos, n), KeptOffsets(src, pos, n);
      var ks', os' := Kept(src, pos, n - 1), KeptOffsets(src, pos, n - 1);
      if Keeps(At(src, pos, n - 1)) {
        assert ks == ks' + [At(src, pos, n - 1).frame];
        assert os == os' + [n - 1];
        forall i | 0 <= i < |os|
          ensures os[i] < n && Keeps(At(src, pos, os[i])) && ks[i] == At(src, pos, os[i]).frame
        {
          if i < |os'| {
            assert os[i] == os'[i] && ks[i] == ks'[i];
          }
        }
      } else {
        assert ks == ks' && os == os';
      }
    }
  }
}
