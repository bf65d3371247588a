/**
 * Where the two processes meet, by name only: the name the capture loop writes
 * matches the mail watcher's glob, and the subject that name gets. That the
 * watcher sees the file at all needs the tracker's working directory to be the
 * watcher's script directory.
 */
module Handoff {
  import opened PathNames
  import Capture
  import Dispatch

  /**
   * A saved capture matches the watcher's glob. For a stamp `date + "_" + time`
   * as `%Y%m%d_%H%M%S` produces, the subject carries only the time of day.
   */
  lemma SubjectOfCapture(date: string, time: string)
    requires forall k :: 0 <= k < |time| ==> time[k] != '_'
    ensures MatchesCapturePattern(Capture.CaptureFileName(date + "_" + time))
    ensures Dispatch.Subject(Capture.CaptureFileName(date + "_" + time)) == Dispatch.SubjectPrefix + time
  {
    var name := Capture.CaptureFileName(date + "_" + time);
    assert name[..|CapturePrefix|] == CapturePrefix;
    assert name[|name| - |CaptureSuffix|..] == CaptureSuffix;
    StemOfCaptureFile(name);
    assert Stem(name) == (CapturePrefix + date) + "_" + time;
    LastFieldAfterSeparator(CapturePrefix + date, time);
  }
}
