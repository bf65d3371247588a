/**
 * One cycle of the tracker's main loop, from the bird flag to the saved file,
 * and a run of consecutive cycles.
 *
 * Clock readings and the `strftime` stamp are inputs (`Clock`); the device
 * queues are the endless stream `src`, read from position `cursor`.
 */
module Capture {
  import opened Labels
  import Burst
  import opened Sharpness
  import opened PathNames

  /** Minimum time between a save and the next capture, in seconds. */
  const DebounceSeconds: real := 10.0

  /** The best score must exceed this for the frame to be written. */
  const SaveThreshold: real := 2000.0

  /** `last_saved_time` and the position of the next pull in the queues. */
  datatype State = State(lastSaved: real, cursor: nat)

  /** `last_saved_time` starts at 0. */
  const Initial: State := State(0.0, 0)

  /**
   * The readings one cycle takes: the monotonic time at the gate, the
   * monotonic time read after the write, and the `%Y%m%d_%H%M%S` stamp.
   */
  datatype Clock = Clock(gateTime: real, saveTime: real, stamp: string)

  datatype Outcome<F> =
    | NoCapture
    | SkippedNoValidFrames
    | SkippedNotSharp(best: real)
    | Saved(file: string, frame: F, best: real, at: real)
    | Crashed(error: LookupError)

  function CaptureFileName(stamp: string): string {
    CapturePrefix + stamp + CaptureSuffix
  }

  /** A capture opens on a bird, strictly more than ten seconds after the last save. */
  predicate GateOpens(bird: bool, now: real, lastSaved: real) {
    bird && now - lastSaved > DebounceSeconds
  }

  /**
   * One pass of the main loop. A capture opens only on a bird with the debounce
   * window elapsed; it writes a file, and moves `last_saved_time`, exactly when
   * some burst frame scores above 2000, and the file is named after the stamp.
   * The written frame is the first frame with the burst's highest score.
   */
  function Cycle<F>(s: State, src: Burst.Source<F>, score: F -> real, clk: Clock): (r: (State, Outcome<F>))
    ensures var bird := BirdDetected(src(s.cursor).tracklets);
      r.1.NoCapture? <==> !GateOpens(bird, clk.gateTime, s.lastSaved)
    ensures r.1.Saved? ==> r.0.lastSaved == clk.saveTime && r.1.at == clk.saveTime
    ensures !r.1.Saved? ==> r.0.lastSaved == s.lastSaved
    ensures r.1.NoCapture? ==> r.0.cursor == s.cursor + 1
    ensures r.1.SkippedNoValidFrames? || r.1.SkippedNotSharp? || r.1.Saved? ==>
      Burst.Run(src, s.cursor + 1).Collected? &&
      r.0.cursor == s.cursor + 1 + Burst.Run(src, s.cursor + 1).attempts
    ensures r.1.Crashed? ==>
      Burst.Run(src, s.cursor + 1).Raised? &&
      r.0.cursor == s.cursor + 2 + Burst.Run(src, s.cursor + 1).attempt
    ensures r.1.Saved? <==>
      && GateOpens(BirdDetected(src(s.cursor).tracklets), clk.gateTime, s.lastSaved)
      && Burst.Run(src, s.cursor + 1).Collected?
      && SomeScoreAbove(Burst.Run(src, s.cursor + 1).frames, score, SaveThreshold)
    ensures r.1.Saved? ==>
      var frames := Burst.Run(src, s.cursor + 1).frames;
      && r.1.file == CapturePrefix + clk.stamp + CaptureSuffix
      && r.1.best > SaveThreshold
      && score(r.1.frame) == r.1.best
      && (exists i :: 0 <= i < |frames| && frames[i] == r.1.frame
            && forall j :: 0 <= j < i ==> score(frames[j]) < r.1.best)
      && forall j :: 0 <= j < |frames| ==> score(frames[j]) <= r.1.best
    ensures r.1.SkippedNoValidFrames? <==>
      && GateOpens(BirdDetected(src(s.cursor).tracklets), clk.gateTime, s.lastSaved)
      && Burst.Run(src, s.cursor + 1).Collected?
      && Burst.Run(src, s.cursor + 1).frames == []
    ensures r.1.SkippedNotSharp? ==>
      && r.1.best <= SaveThreshold
      && Burst.Run(src, s.cursor + 1).Collected?
      && Burst.Run(src, s.cursor + 1).frames != []
    ensures r.1.Crashed? <==>
      && GateOpens(BirdDetected(src(s.cursor).tracklets), clk.gateTime, s.lastSaved)
      && Burst.Run(src, s.cursor + 1).Raised?
  {
    var p := src(s.cursor);
    if !GateOpens(BirdDetected(p.tracklets), clk.gateTime, s.lastSaved) then
      (State(s.lastSaved, s.cursor + 1), NoCapture)
    else
      match Burst.Run(src, s.cursor + 1)
      case Raised(k, e) =>
        (State(s.lastSaved, s.cursor + 2 + k), Crashed(e))
      case Collected(frames, n) =>
        var next := State(s.lastSaved, s.cursor + 1 + n);
        if frames == [] then
          (next, SkippedNoValidFrames)
        else
          var sel := Sharpest(frames, score);
          if sel.best > SaveThreshold then
            (State(clk.saveTime, next.cursor),
             Saved(CaptureFileName(clk.stamp), frames[sel.index.value], sel.best, clk.saveTime))
          else
            (next, SkippedNotSharp(sel.best))
  }

  /** Consecutive cycles, one clock reading each; the loop ends at the first crash. */
  function Trace<F>(s: State, src: Burst.Source<F>, score: F -> real, clocks: seq<Clock>): (r: seq<Outcome<F>>)
    ensures |r| <= |clocks|
    ensures clocks != [] ==> r != [] && r[0] == Cycle(s, src, score, clocks[0]).1
    ensures forall i :: 0 <= i < |r| - 1 ==> !r[i].Crashed?
    ensures |r| < |clocks| ==> r != [] && r[|r| - 1].Crashed?
    decreases |clocks|
  {
    if clocks == [] then []
    else
      var (s', o) := Cycle(s, src, score, clocks[0]);
      if o.Crashed? then [o] else [o] + Trace(s', src, score, clocks[1..])
  }

  /** The monotonic clock never runs backwards, within a cycle or across cycles. */
  predicate Monotonic(clocks: seq<Clock>) {
    && (forall i :: 0 <= i < |clocks| ==> clocks[i].gateTime <= clocks[i].saveTime)
    && (forall i :: 0 <= i < |clocks| - 1 ==> clocks[i].saveTime <= clocks[i + 1].gateTime)
  }

  /** What one cycle does to `last_saved_time`, for a clock that does not run backwards. */
  lemma CycleKeepsCooldown<F>(s: State, src: Burst.Source<F>, score: F -> real, clk: Clock)
    requires clk.gateTime <= clk.saveTime
    ensures var c := Cycle(s, src, score, clk);
      && c.0.lastSaved >= s.lastSaved
      && (c.1.Saved? ==> c.1.at > s.lastSaved + DebounceSeconds && c.0.lastSaved == c.1.at)
  {
  }

  lemma TailMonotonic(clocks: seq<Clock>)
    requires Monotonic(clocks) && clocks != []
    ensures Monotonic(clocks[1..])
  {
    assert forall i :: 0 <= i < |clocks| - 1 ==> clocks[1..][i] == clocks[i + 1];
  }

  /** Every file saved in the trace was saved after time `bound`. */
  predicate SavedAfter<F>(t: seq<Outcome<F>>, bound: real) {
    forall i :: 0 <= i < |t| && t[i].Saved? ==> t[i].at > bound
  }

  /** Every two files saved in the trace are more than `gap` seconds apart. */
  predicate SavedApart<F>(t: seq<Outcome<F>>, gap: real) {
    forall i, j :: 0 <= i < j < |t| && t[i].Saved? && t[j].Saved? ==> t[j].at - t[i].at > gap
  }

  /** A save in front of a trace that saves only later than `gap` after it keeps the trace spaced. */
  lemma SavedApartCons<F>(o: Outcome<F>, t: seq<Outcome<F>>, gap: real)
    requires SavedApart(t, gap)
    requires o.Saved? ==> SavedAfter(t, o.at + gap)
    ensures SavedApart([o] + t, gap)
  {
    var u := [o] + t;
    forall i, j | 0 <= i < j < |u| && u[i].Saved? && u[j].Saved?
      ensures u[j].at - u[i].at > gap
    {
      assert u[j] == t[j - 1];
      if i > 0 {
        assert u[i] == t[i - 1];
      }
    }
  }

  /** An outcome saved after `bound` in front of a trace saved after `bound`. */
  lemma SavedAfterCons<F>(o: Outcome<F>, t: seq<Outcome<F>>, bound: real)
    requires SavedAfter(t, bound)
    requires o.Saved? ==> o.at > bound
    ensures SavedAfter([o] + t, bound)
  {
    var u := [o] + t;
    forall i | 0 <= i < |u| && u[i].Saved?
      ensures u[i].at > bound
    {
      if i > 0 {
        assert u[i] == t[i - 1];
      }
    }
  }

  /** Every save in a run happens more than ten seconds after the starting `last_saved_time`. */
  lemma {:induction false} SavesAfterCooldown<F>(s: State, src: Burst.Source<F>, score: F -> real, clocks: seq<Clock>)
    requires Monotonic(clocks)
    ensures SavedAfter(Trace(s, src, score, clocks), s.lastSaved + DebounceSeconds)
    decreases |clocks|
  {
    if clocks != [] {
      var c := Cycle(s, src, score, clocks[0]);
      CycleKeepsCooldown(s, src, score, clocks[0]);
      if !c.1.Crashed? {
        TailMonotonic(clocks);
        SavesAfterCooldown(c.0, src, score, clocks[1..]);
        SavedAfterCons(c.1, Trace(c.0, src, score, clocks[1..]), s.lastSaved + DebounceSeconds);
      }
    }
  }

  /**
   * Debounce: with a monotonic clock, any two files saved in one run are more
   * than ten seconds apart.
   */
  lemma {:induction false} SavesSpaced<F>(s: State, src: Burst.Source<F>, score: F -> real, clocks: seq<Clock>)
    requires Monotonic(clocks)
    ensures SavedApart(Trace(s, src, score, clocks), DebounceSeconds)
    decreases |clocks|
  {
    if clocks != [] {
      var c := Cycle(s, src, score, clocks[0]);
      CycleKeepsCooldown(s, src, score, clocks[0]);
      if !c.1.Crashed? {
        TailMonotonic(clocks);
        SavesAfterCooldown(c.0, src, score, clocks[1..]);
        SavesSpaced(c.0, src, score, clocks[1..]);
        SavedApartCons(c.1, Trace(c.0, src, score, clocks[1..]), DebounceSeconds);
      }
    }
  }

  /** From the start state (`last_saved_time = 0`), no file is saved before monotonic time 10. */
  lemma FirstSavesAfterTen<F>(src: Burst.Source<F>, score: F -> real, clocks: seq<Clock>)
    requires Monotonic(clocks)
    ensures SavedAfter(Trace(Initial, src, score, clocks), DebounceSeconds)
  {
    SavesAfterCooldown(Initial, src, score, clocks);
  }

  /**
   * Every frame a run writes is one `is_image_in_focus` would call in focus:
   * the flag the selection loop throws away is true for every saved frame.
   */
  lemma {:induction false} SavedFramesInFocus<F>(s: State, src: Burst.Source<F>, score: F -> real, clocks: seq<Clock>)
    ensures forall i :: 0 <= i < |Trace(s, src, score, clocks)| && Trace(s, src, score, clocks)[i].Saved? ==>
      FocusCheck(score(Trace(s, src, score, clocks)[i].frame), FocusThreshold).0
    decreases |clocks|
  {
    if clocks != [] {
      var (s', o) := Cycle(s, src, score, clocks[0]);
      if !o.Crashed? {
        SavedFramesInFocus(s', src, score, clocks[1..]);
      }
    }
  }
}
