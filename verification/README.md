# Bird capture and mail-out, modelled in Dafny

The system has two processes. The first watches a camera's object tracker for
birds. When one shows up, it samples a short burst of high-resolution frames,
keeps the sharpest, and, if that frame is sharp enough, saves it as
`bird_detected_<stamp>.png` in its working directory. The second process polls
its own script directory and mails each such file found there as a single
attachment. It deletes a file once the whole SMTP exchange for it has finished
without an error.

This project models the decision logic of both processes as pure functions
over small records:

- `Labels`: the tracklet class id and its Python-style lookup in the detector's
  21-name table. Negative indices are valid. The per-cycle lookup falls back to
  `str(label)`; the burst's re-check does not, and raises `IndexError`.
- `Burst`: the bounded burst sampler. It makes at most 10 pulls and keeps at
  most 5 frames, each from a pull whose tracklets still show a bird. The device
  queues are an endless stream `nat -> Pull<F>`.
- `Sharpness`: the strict-greater scan for the sharpest frame. The scan starts
  from a best score of 0. The Laplacian-variance score is an uninterpreted
  parameter `F -> real`. It stands for the second component of
  `is_image_in_focus`, the only one the selection loop keeps.
- `Capture`: one cycle of the main loop, covering the bird flag, the debounce
  gate (`now - last_saved_time > 10`), the burst, the selection, and the save
  gate (`best > 2000.0`). It also covers a run of cycles and the debounce
  property proved over such a run.
- `PathNames`: the capture-file glob, `PurePath.stem`, `str.rfind` and
  `s.split("_")[-1]`.
- `Dispatch`: `send_email` and one pass of the watcher's loop. The directory
  is a map from names to readable or unreadable entries. Whether the `try` block of
  `send_email` runs to its end for a file in a pass is the parameter
  `delivers`. That block covers login, `send_message`, the progress line and
  the SMTP `QUIT` sent on leaving the `with`.
- `Handoff`: the meeting point of the two processes, by name. A saved file matches the
  watcher's glob. Its subject carries only the `HHMMSS` part of the stamp,
  because `split("_")[-1]` drops the date.

The watcher sends one message per file, in glob order. It has no batching
and no set of already-sent names, so a file whose send failed stays on disk
and is tried again on the next pass.

## Model

| member | source | states |
|---|---|---|
| Labels.TableBirdOnlyAtThree | object_tracker.py:31-32 | among the 21 class names, only entry 3 lower-cases to "bird" |
| Labels.FallbackNeverBird | object_tracker.py:135-138 | the `str(label)` fallback for an out-of-range class id never compares equal to "bird" |
| Labels.BirdNameIff | object_tracker.py:135-147 | with Python's negative indexing and the fallback, a class id counts as a bird exactly when it is 3 or -18 |
| Labels.BirdDetectedIff | object_tracker.py:126-148 | the per-cycle `bird_detected` flag is set exactly when some tracklet has class id 3 or -18 |
| Labels.RecheckBird | object_tracker.py:162 | the burst's re-check only ever raises for a class id outside the table |
| Labels.RecheckFindsBird | object_tracker.py:162 | the re-check answers True exactly when a bird tracklet comes before any out-of-range label (short-circuit `any`) |
| Labels.RecheckRaises | object_tracker.py:162 | the re-check raises exactly when an out-of-range label comes before any bird tracklet |
| Labels.RecheckAgreesWhenValid | object_tracker.py:135-162 | when every label is in range, the burst re-check and the per-cycle flag give the same answer |
| Burst.Loop | object_tracker.py:156-170 | each loop iteration keeps the frame of a pull exactly when its re-check found a bird; the loop ends with 5 frames or 10 pulls, or at the first re-check that raises |
| Burst.KeptBounded | object_tracker.py:156-169 | while sampling continues, the batch never exceeds 5 frames nor the number of pulls made |
| Burst.StillSamplingMeans | object_tracker.py:156 | the loop condition held before every pull the burst made, and no earlier pull raised |
| Burst.Run | object_tracker.py:153-170 | the burst makes at most 10 pulls, keeps at most 5 frames and never more frames than pulls; it stops exactly when 5 frames are kept or 10 pulls are used; the frames are exactly those of the bird pulls; a raising re-check ends it with that error, on a pull before the 10th while fewer than 5 frames are kept and after no earlier pull raised |
| Burst.KeptInPullOrder | object_tracker.py:162-164 | the kept frames are exactly the frames of the pulls whose re-check found a bird, each once, in pull order |
| Sharpness.Scan | object_tracker.py:177-185 | the selected score is at least every frame's score; a frame is chosen exactly when some score is positive; the chosen frame has the selected score and every earlier frame scores strictly less (ties go to the earliest); no frame chosen means a best score of 0 |
| Capture.Cycle | object_tracker.py:109-194 | a capture opens exactly when a bird is flagged and `now - last_saved_time > 10`; a file is written exactly when some burst frame scores above 2000; its name is `bird_detected_` + stamp + `.png`; the written frame is the first frame with the top score (also in focus by `is_image_in_focus`'s threshold 100); `last_saved_time` moves to the post-write time only when a file is written; an empty burst writes nothing; a raising re-check crashes the loop; the next cycle reads after the gate pull and every burst pull, the raising one included |
| Capture.SavedFramesInFocus | object_tracker.py:180-192 | in any run, every written frame is one `is_image_in_focus` flags as in focus (variance above 100), although the selection loop discards that flag |
| Capture.Trace | object_tracker.py:109-200 | a run yields at most one outcome per cycle; its first outcome is the first cycle's; no outcome before the last is a crash; a run shorter than its clock list ends in a crash |
| Capture.CycleKeepsCooldown | object_tracker.py:151-192 | with a monotonic clock, one cycle never moves `last_saved_time` backwards, and a save lands more than 10 s after the previous `last_saved_time` |
| Capture.SavesAfterCooldown | object_tracker.py:151-192 | every save in a run lands more than 10 s after the starting `last_saved_time` |
| Capture.FirstSavesAfterTen | object_tracker.py:107-192 | starting from `last_saved_time = 0`, no file is saved before monotonic time 10 |
| Capture.SavesSpaced | object_tracker.py:151-192 | with a monotonic clock, any two saves in a run are more than 10 s apart |
| PathNames.LastField | email_image.py:17 | `split("_")[-1]` is the longest underscore-free suffix of the stem: all of it, or what follows its last underscore |
| PathNames.StemOfCaptureFile | email_image.py:17 | for a name matching `bird_detected_*.png`, the stem is the name without `.png` |
| PathNames.LastFieldAfterSeparator | email_image.py:17 | the last field of `p + "_" + t` is `t` when `t` has no underscore |
| Dispatch.BuildMessage | email_image.py:20-30 | the message has a plain-text part then exactly one image attachment, carrying the file's bytes under the file's own name, and the subject derived from the stem |
| Dispatch.SendEmail | email_image.py:16-39 | a read failure escapes (an error exactly when the file is missing or unreadable); otherwise the file is deleted exactly when the `try` block ran to its end (`delivers`), a delivery failure is swallowed, and the message carries that file |
| Dispatch.AfterSendRemoves | email_image.py:32-37 | after `send_email` on a readable file, only that file, and only if `delivers` holds for it, is gone; every other file keeps its contents |
| Dispatch.SendEach | email_image.py:44-46 | a pass that stops early stops at a position of the listing |
| Dispatch.SendEachCompletes | email_image.py:27-46 | a pass over the listing completes exactly when every listed file can be read |
| Dispatch.SendEachRemoves | email_image.py:32-46 | a completed pass has deleted exactly the delivered listed files and changed no other file |
| Dispatch.SendEachCrashes | email_image.py:27-46 | a pass stops at the first unreadable file, having handled the earlier files as a completed pass would and leaving the later ones untouched |
| Dispatch.SendEachOutbox | email_image.py:44-46 | one message per file read, in listing order, each built from that file's name and content |
| Dispatch.Pass | email_image.py:43-47 | a poll pass sends one message per capture file, in listing order; it completes exactly when every capture file is readable, and then it has deleted exactly the delivered capture files and left every other file as it was; at an unreadable file the process ends, after the earlier files were sent and (if delivered) deleted, with the later ones untouched |
| Dispatch.RetriedUntilDelivered | email_image.py:43-47 | on the next pass, a listed file is listed again exactly when its send failed |
| Handoff.SubjectOfCapture | email_image.py:17-23 | a saved capture file matches the watcher's glob, and for a stamp `date_time` its subject is `Bird detected - ` + time, without the date |

## Left out

- Device pipeline construction, queue setup, argument parsing, the FPS counter, drawing, `imshow` and the `q` key (object_tracker.py:35-90, 99-102, 117-122, 141-144, 196-200): hardware plumbing and UI, with no decision logic. The queues are the stream `src`.
- The Laplacian variance itself (object_tracker.py:94-95): a floating-point computation in a foreign library. It is the parameter `score`, and NaN scores are not modelled.
- `time.monotonic`, `time.strftime` and `time.sleep(0.2)`: the clock readings and the stamp are the inputs of `Capture.Clock`. The sleep has no effect on the logic.
- `cv2.imwrite` (object_tracker.py:190): the code does not check its return value and resets `last_saved_time` whether or not the write succeeded. The model follows the code, so a `Saved` outcome means a write was issued.
- SMTP connection, login and MIME encoding (email_image.py:20-35): these are library wrappers. The message is a record and delivery is the parameter `delivers`. `From`/`To` are the placeholder constants of the source.
- Directory entries: `glob` listing order is arbitrary, so the pass takes any duplicate-free listing of the capture-named files. Directories matching the pattern and a concurrent writer adding files mid-pass are not modelled. A failing `unlink` (email_image.py:37) is one more case of `delivers` being false: the error is swallowed and the file stays on disk.
- Handoff: the tracker writes the relative `filename` into its working directory (object_tracker.py:190), while the watcher polls `Path(__file__).parent` (email_image.py:9). `Handoff` relates names only, and assumes the tracker is started from the watcher's script directory. Otherwise the watcher never sees the captures.
- Duplicate sends: an error after `send_message` succeeded (the progress line or a non-221 reply to `QUIT`, email_image.py:32-38) is swallowed and the file stays on disk. The next pass mails it again. In the model this is one more case of `delivers` being false, and the model does not track whether a message already reached the server.
- `str.lower` is modelled on ASCII only. Every name it is applied to here is ASCII.
- The watcher's endless `while True` with a 5 s sleep is modelled as single passes plus the two-pass lemma `Dispatch.RetriedUntilDelivered`.
- Configuration: 10 s, 5 frames, 10 pulls, 2000.0 and the focus threshold 100.0 are hard-coded in the source and are constants here; there is nothing to configure.
