/**
 * Class-label handling of the tracker loop: mapping a tracklet's numeric label
 * to a class name, Python-style, and deciding whether a bird is in view.
 *
 * Two lookups exist in the capture loop. The per-cycle one falls back to the
 * decimal text of the label when the index is out of range; the re-check
 * inside the burst has no fallback and raises `IndexError` instead.
 */
module Labels {
  import opened Wrappers

  /** The detector's class names, indexed by class id. */
  const LabelMap: seq<string> := [
    "background", "aeroplane", "bicycle", "bird", "boat", "bottle", "bus", "car", "cat", "chair", "cow",
    "diningtable", "dog", "horse", "motorbike", "person", "pottedplant", "sheep", "sofa", "train", "tvmonitor"]

  const Bird: string := "bird"

  /** The part of a tracked object the decision logic reads. */
  datatype Tracklet = Tracklet(id: int, classId: int)

  /** Python list indexing accepts negative indices counted from the end. */
  predicate ValidIndex(i: int) {
    -|LabelMap| <= i < |LabelMap|
  }

  /**
   * `tbl[i]`, walked entry by entry. On the literal 21-name table a symbolic
   * index makes the verifier split over every entry at once; the walk lets
   * each proof unfold only the entries it needs. `EntryIsIndex` ties it to `tbl[i]`.
   */
  function Entry(tbl: seq<string>, i: nat): (r: string)
    requires i < |tbl|
    decreases i
  {
    if i == 0 then tbl[0] else Entry(tbl[1..], i - 1)
  }

  lemma {:induction false} EntryIsIndex(tbl: seq<string>, i: nat)
    requires i < |tbl|
    ensures Entry(tbl, i) == tbl[i]
    decreases i
  {
    if i > 0 {
      EntryIsIndex(tbl[1..], i - 1);
    }
  }

  /** `labelMap[i]` with Python's indexing rule. */
  function Lookup(i: int): string
    requires ValidIndex(i)
  {
    Entry(LabelMap, if i >= 0 then i else |LabelMap| + i)
  }

  /** `str.lower` on the ASCII range, which covers every name compared here. */
  function LowerChar(c: char): char {
    if 'A' <= c <= 'Z' then (c as int + 32) as char else c
  }

  function DigitChar(d: nat): char
    requires d < 10
  {
    "0123456789"[d]
  }

  /** `str(n)` for a non-negative integer. */
  function NatToString(n: nat): string
    decreases n
  {
    if n < 10 then [DigitChar(n)] else NatToString(n / 10) + [DigitChar(n % 10)]
  }

  /** `str(i)` for any integer. */
  function IntToString(i: int): string {
    if i < 0 then "-" + NatToString(-i) else NatToString(i)
  }

  /** The name the per-cycle loop gives a label: the table entry, or `str(label)`. */
  function DisplayName(classId: int): string {
    if ValidIndex(classId) then Lookup(classId) else IntToString(classId)
  }

  /** `name.lower() == "bird"`, compared character by character. */
  predicate IsBirdName(name: string) {
    |name| == |Bird| && forall k :: 0 <= k < |name| ==> LowerChar(name[k]) == Bird[k]
  }

  /**
   * The per-cycle flag: set when any tracklet's display name, lower-cased,
   * is "bird". Every tracklet is visited; the flag is never cleared.
   */
  function BirdFlag(ts: seq<Tracklet>, flag: bool): bool
    decreases |ts|
  {
    if ts == [] then flag
    else BirdFlag(ts[1..], flag || IsBirdName(DisplayName(ts[0].classId)))
  }

  function BirdDetected(ts: seq<Tracklet>): bool {
    BirdFlag(ts, false)
  }

  /** The burst's `IndexError`: a label with no table entry. */
  datatype LookupError = IndexError(classId: int)

  /**
   * The burst re-check: `any(...)` over the tracklets with a direct table
   * lookup. It stops at the first bird; an invalid label met before that raises.
   */
  function RecheckBird(ts: seq<Tracklet>): (r: Result<bool, LookupError>)
    ensures r.Err? ==> !ValidIndex(r.error.classId)
    decreases |ts|
  {
    if ts == [] then Ok(false)
    else if !ValidIndex(ts[0].classId) then Err(IndexError(ts[0].classId))
    else if IsBirdName(Lookup(ts[0].classId)) then Ok(true)
    else RecheckBird(ts[1..])
  }

  lemma NatToStringStartsWithDigit(n: nat)
    ensures |NatToString(n)| > 0 && '0' <= NatToString(n)[0] <= '9'
    decreases n
  {
    if n >= 10 {
      NatToStringStartsWithDigit(n / 10);
    }
  }

  /** The fallback `str(label)` is never a bird name. */
  lemma FallbackNeverBird(i: int)
    ensures !IsBirdName(IntToString(i))
  {
    NatToStringStartsWithDigit(if i < 0 then -i else i);
    var s := IntToString(i);
    assert LowerChar(s[0]) != Bird[0];
  }

  /** Only table entry 3 lower-cases to "bird". */
  lemma TableBirdOnlyAtThree(k: nat)
    requires k < |LabelMap|
    ensures IsBirdName(LabelMap[k]) <==> k == 3
  {
    var s := LabelMap[k];
    if IsBirdName(s) {
      assert LowerChar(s[0]) == 'b' && LowerChar(s[1]) == 'i';
    }
  }

  /**
   * With the fallback, a class id names a bird exactly when it is 3 or, by
   * Python's negative indexing, -18.
   */
  lemma BirdNameIff(id: int)
    ensures IsBirdName(DisplayName(id)) <==> id == 3 || id == -18
  {
    if ValidIndex(id) {
      var k: nat := if id >= 0 then id else |LabelMap| + id;
      EntryIsIndex(LabelMap, k);
      TableBirdOnlyAtThree(k);
    } else {
      FallbackNeverBird(id);
    }
  }

  predicate HasBirdId(t: Tracklet) {
    t.classId == 3 || t.classId == -18
  }

  lemma {:induction false} BirdFlagIff(ts: seq<Tracklet>, flag: bool)
    ensures BirdFlag(ts, flag) <==> flag || exists i :: 0 <= i < |ts| && HasBirdId(ts[i])
    decreases |ts|
  {
    if ts != [] {
      BirdNameIff(ts[0].classId);
      BirdFlagIff(ts[1..], flag || IsBirdName(DisplayName(ts[0].classId)));
      if exists i :: 0 <= i < |ts[1..]| && HasBirdId(ts[1..][i]) {
        var i :| 0 <= i < |ts[1..]| && HasBirdId(ts[1..][i]);
        assert HasBirdId(ts[i + 1]);
      }
      if exists i :: 0 <= i < |ts| && HasBirdId(ts[i]) {
        var i :| 0 <= i < |ts| && HasBirdId(ts[i]);
        if i > 0 {
          assert HasBirdId(ts[1..][i - 1]);
        }
      }
    }
  }

  /** The per-cycle flag is set exactly when some tracklet carries class id 3 or -18. */
  lemma BirdDetectedIff(ts: seq<Tracklet>)
    ensures BirdDetected(ts) <==> exists i :: 0 <= i < |ts| && HasBirdId(ts[i])
  {
    BirdFlagIff(ts, false);
  }

  /** When every label has a table entry, the re-check and the per-cycle flag agree. */
  lemma {:induction false} RecheckAgreesWhenValid(ts: seq<Tracklet>)
    requires forall i :: 0 <= i < |ts| ==> ValidIndex(ts[i].classId)
    ensures RecheckBird(ts) == Ok(BirdDetected(ts))
    decreases |ts|
  {
    if ts != [] {
      var tail := ts[1..];
      assert DisplayName(ts[0].classId) == Lookup(ts[0].classId);
      if IsBirdName(Lookup(ts[0].classId)) {
        BirdFlagIff(tail, true);
      } else {
        assert forall i :: 0 <= i < |tail| ==> tail[i] == ts[i + 1];
        RecheckAgreesWhenValid(tail);
      }
    }
  }

  /** One step of the re-check, with the table lookup replaced by the class ids it accepts. */
  lemma RecheckStep(ts: seq<Tracklet>)
    requires ts != []
    ensures RecheckBird(ts) ==
      if !ValidIndex(ts[0].classId) then Err(IndexError(ts[0].classId))
      else if HasBirdId(ts[0]) then Ok(true)
      else RecheckBird(ts[1..])
  {
    BirdNameIff(ts[0].classId);
  }

  /** Tracklet `i` has class id 3 or -18, and every tracklet before it has a table entry. */
  predicate FindsAt(ts: seq<Tracklet>, i: int) {
    && 0 <= i < |ts|
    && HasBirdId(ts[i])
    && forall j :: 0 <= j < i ==> ValidIndex(ts[j].classId)
  }

  /** Behind a valid, non-bird first tracklet, positions shift by one. */
  lemma FindsAtShift(ts: seq<Tracklet>, i: int)
    requires ts != [] && ValidIndex(ts[0].classId) && !HasBirdId(ts[0])
    ensures FindsAt(ts, i + 1) <==> FindsAt(ts[1..], i)
  {
    if 0 <= i < |ts| - 1 {
      assert ts[i + 1] == ts[1..][i];
      assert forall j :: 0 < j < i + 1 ==> ts[j] == ts[1..][j - 1];
    }
  }

  /**
   * The re-check answers "bird" exactly when a tracklet with class id 3 or -18
   * comes before any out-of-range label.
   */
  lemma {:induction false} RecheckFindsBird(ts: seq<Tracklet>)
    ensures RecheckBird(ts) == Ok(true) <==> exists i :: FindsAt(ts, i)
    decreases |ts|
  {
    if ts != [] {
      var tail := ts[1..];
      RecheckStep(ts);
      if ValidIndex(ts[0].classId) && HasBirdId(ts[0]) {
        assert FindsAt(ts, 0);
      } else if ValidIndex(ts[0].classId) {
        RecheckFindsBird(tail);
        if RecheckBird(tail) == Ok(true) {
          var i :| FindsAt(tail, i);
          FindsAtShift(ts, i);
        }
        if exists i :: FindsAt(ts, i) {
          var i :| FindsAt(ts, i);
          FindsAtShift(ts, i - 1);
        }
      }
    }
  }

  /** Tracklet `i` has no table entry, and every tracklet before it has one and is not a bird. */
  predicate RaisesAt(ts: seq<Tracklet>, i: int) {
    && 0 <= i < |ts|
    && !ValidIndex(ts[i].classId)
    && forall j :: 0 <= j < i ==> ValidIndex(ts[j].classId) && !HasBirdId(ts[j])
  }

  /** Behind a valid, non-bird first tracklet, positions shift by one. */
  lemma RaisesAtShift(ts: seq<Tracklet>, i: int)
    requires ts != [] && ValidIndex(ts[0].classId) && !HasBirdId(ts[0])
    ensures RaisesAt(ts, i + 1) <==> RaisesAt(ts[1..], i)
  {
    if 0 <= i < |ts| - 1 {
      assert ts[i + 1] == ts[1..][i];
      assert forall j :: 0 < j < i + 1 ==> ts[j] == ts[1..][j - 1];
    }
  }

  /**
   * The re-check raises exactly when an out-of-range label comes before any
   * tracklet with class id 3 or -18.
   */
  lemma {:induction false} RecheckRaises(ts: seq<Tracklet>)
    ensures RecheckBird(ts).Err? <==> exists i :: RaisesAt(ts, i)
    decreases |ts|
  {
    if ts != [] {
      var tail := ts[1..];
      RecheckStep(ts);
      if !ValidIndex(ts[0].classId) {
        assert RaisesAt(ts, 0);
      } else if !HasBirdId(ts[0]) {
        RecheckRaises(tail);
        if RecheckBird(tail).Err? {
          var i :| RaisesAt(tail, i);
          RaisesAtShift(ts, i);
        }
        if exists i :: RaisesAt(ts, i) {
          var i :| RaisesAt(ts, i);
          RaisesAtShift(ts, i - 1);
        }
      }
    }
  }
}
