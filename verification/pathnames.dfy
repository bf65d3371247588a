/**
 * The file-name conventions shared by the capture loop and the mail watcher:
 * the capture file pattern and the Python string operations applied to names.
 */
module PathNames {

  const CapturePrefix: string := "bird_detected_"
  const CaptureSuffix: string := ".png"

  /** The watcher's glob `bird_detected_*.png` (case-sensitive, as on POSIX). */
  predicate MatchesCapturePattern(name: string) {
    && |name| >= |CapturePrefix| + |CaptureSuffix|
    && name[..|CapturePrefix|] == CapturePrefix
    && name[|name| - |CaptureSuffix|..] == CaptureSuffix
  }

  /** `s.rfind(c)`: the index of the last `c` in `s`, or -1. */
  function RFind(s: string, c: char): (r: int)
    ensures -1 <= r < |s|
    ensures r >= 0 ==> s[r] == c
    ensures forall k :: r < k < |s| ==> s[k] != c
    decreases |s|
  {
    if s == [] then -1
    else if s[|s| - 1] == c then |s| - 1
    else RFind(s[..|s| - 1], c)
  }

  /** `PurePath.stem`: the name without its last suffix, if it has one. */
  function Stem(name: string): string {
    var i := RFind(name, '.');
    if 0 < i < |name| - 1 then name[..i] else name
  }

  /**
   * `s.split("_")[-1]`: the longest suffix of `s` free of underscores, which
   * is either all of `s` or starts right after an underscore.
   */
  function LastField(s: string): (r: string)
    ensures |r| <= |s| && r == s[|s| - |r|..]
    ensures forall k :: 0 <= k < |r| ==> r[k] != '_'
    ensures |r| == |s| || s[|s| - |r| - 1] == '_'
    decreases |s|
  {
    if s == [] then []
    else if s[|s| - 1] == '_' then []
    else LastField(s[..|s| - 1]) + [s[|s| - 1]]
  }

  /** A capture file's stem is its name without ".png". */
  lemma StemOfCaptureFile(name: string)
    requires MatchesCapturePattern(name)
    ensures Stem(name) == name[..|name| - |CaptureSuffix|]
  {
    var i := |name| - |CaptureSuffix|;
    assert name[i..] == CaptureSuffix;
    assert name[i] == '.';
    assert forall k :: i < k < |name| ==> name[k] == CaptureSuffix[k - i];
    assert RFind(name, '.') == i;
  }

  /** The last `_`-separated field of `p + "_" + t` is `t` when `t` has no underscore. */
  lemma LastFieldAfterSeparator(p: string, t: string)
    requires forall k :: 0 <= k < |t| ==> t[k] != '_'
    ensures LastField(p + "_" + t) == t
  {
    var s := p + "_" + t;
    var r := LastField(s);
    assert s[|s| - |t| - 1] == '_';
    assert r == s[|s| - |t|..] == t;
  }
}
