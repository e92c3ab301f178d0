# Golf ball tracker: movement filter and trace buffer

A Dafny model of the two pieces of sequential logic in the golf ball tracker
(`Golf_tracker.py`): the movement filter that turns the tracking service's per-frame
detections into moving-ball detections, and the bookkeeping of the fading motion trace
drawn over each frame.

- **Movement filter** (`filter_moving_objects`). Frames are walked in order, and so are
  the detections within them. A detection whose score is below the confidence threshold
  is dropped; a missing score counts as 0. Otherwise its box centre is compared with the
  centre last accepted for its label. If the label was seen before and the Euclidean
  distance is strictly below the movement threshold, the detection is dropped as
  stationary. Otherwise it is kept, and the label's entry in the position map becomes the
  new centre. The map lives for the whole run, across frames.
- **Trace buffer** (the annotation loop of `process_video`). Frames are zipped with the
  filtered detection lists. Each pair appends the pixel centre of each of its detections
  to a buffer that only grows. Once the buffer holds more than one point, its last
  `trace_tail_len` points are paired with the age indices of
  `np.arange(trace_tail_len, 0, -1)`, oldest point first. Those ages select each
  circle's opacity.

Files and modules:

| file | module | contents |
|---|---|---|
| `geometry.dfy` | `Geometry` | points, `calculate_distance` as a square-free test, the Euclidean distance as a ghost predicate |
| `detections.dfy` | `Detections` | boxes, detections, the score default, box centres |
| `movement_filter.dfy` | `MovementFilter` | the filter: specification functions, the imperative method, lemmas |
| `trace_annotation.dfy` | `TraceAnnotation` | the trace buffer, tail selection, age pairing, the annotation loop |
| `pipeline.dfy` | `Pipeline` | filter followed by annotation, as `process_video` chains them |
| `sequences.dfy`, `wrappers.dfy` | `Sequences`, `Wrappers` | subsequences, flattening, `Option` and `Result` |

Modelling choices:

- Coordinates, scores and thresholds are `real`.
- Dafny has no square root. `WithinDistance(p, q, t)` is `0 < t && dx*dx + dy*dy < t*t`.
  `WithinDistanceIffCloser` proves it equals "the Euclidean distance is below `t`" for
  every real `t`, negative thresholds included. So the filter needs no precondition on
  the threshold.
- The loops of the source are methods with loop invariants. Each method is proved equal
  to a specification function written by recursion on the prefix of its input:
  `FilterFrame`/`FilterTracks` for the filter, `TraceAfter`/`TraceMarks`/`AnnotateAll`
  for the annotation loop. The properties are lemmas about those functions.
- A box label is the field `tag`, since `label` is a Dafny keyword.
- `ball_trace[-trace_tail_len:]` follows Python slice rules for every integer length.
  `np.arange(n, 0, -1)` is `Ages(n)`, which is empty when `n <= 0`. With a non-positive
  length and a buffer of two or more points, the slice can be longer than the age list.
  Then `alphas[i]` raises an index error. The model returns `Failure(k)`, where `k` is the
  pair being drawn, and `TraceMarksFail` characterises exactly when this happens. The
  slider keeps the length in [5, 100], where drawing never fails (`TraceMarksTotal`).
- The ages are paired from the front of `np.arange`. While the buffer holds fewer than
  `trace_tail_len` points, the newest point therefore gets age
  `trace_tail_len - len + 1`, not 1. `NewestMarkAge` states this.
- The loop runs over `zip(frames, filtered_tracks)`, so it makes
  `min(len(frames), len(filtered_tracks))` annotated frames.
- `int(...)` in the pixel conversion truncates toward zero. It is written out as
  `TruncateToInt` on reals.

## Model

| member | source | states |
|---|---|---|
| `Geometry.WithinDistance` | Golf_tracker.py:41 | the test `calculate_distance(center, previous) < move_thresh` decided without a square root; `WithinDistanceIffCloser` proves it is that comparison |
| `Detections.Score` | Golf_tracker.py:32 | `det.get("score", 0)`: the detection's score, or 0 when it has none |
| `Detections.Center` | Golf_tracker.py:34-36 | the box centre ((xmin + xmax) / 2, (ymin + ymax) / 2) in normalized coordinates, the point the filter compares and records |
| `Geometry.WithinDistanceIffCloser` | Golf_tracker.py:22-23 | the square-free test holds exactly when the Euclidean distance is strictly below the threshold, for every real threshold |
| `Geometry.DistanceSymmetric` | Golf_tracker.py:22-23 | the distance from p to q is the distance from q to p |
| `Geometry.DistanceZeroIffSamePoint` | Golf_tracker.py:22-23 | the distance is zero for identical points and only for them |
| `Geometry.DistanceUnique` | Golf_tracker.py:22-23 | the Euclidean distance is determined uniquely by the two points |
| `MovementFilter.PassesConfidence` | Golf_tracker.py:32-33 | a detection survives the confidence test unless its score (0 when missing) is below the threshold |
| `MovementFilter.Stationary` | Golf_tracker.py:40-42 | the label was seen before and the centre is strictly within the movement threshold of its recorded centre |
| `MovementFilter.FilterFrame` | Golf_tracker.py:30-46 | the inner loop over one frame as a value: the detections kept so far and the position map, built detection by detection from the map the earlier frames left |
| `MovementFilter.FilterTracks` | Golf_tracker.py:26-48 | the outer loop as a value: one kept list per frame and the position map that lives across frames |
| `MovementFilter.FilterMovingObjects` | Golf_tracker.py:25-50 | the nested loops compute `FilterTracks` from the empty map; one output list per frame, each a subsequence of its frame's detections, with no detection below the confidence threshold |
| `MovementFilter.FilterFrameSound` | Golf_tracker.py:31-46 | a frame's output keeps intra-frame order (is a subsequence of its input) and holds only detections that pass the confidence test |
| `MovementFilter.FilterTracksFrames` | Golf_tracker.py:29-48 | exactly one output list per input frame, in frame order; list i is frame i filtered from the map left by frames 0..i-1 |
| `MovementFilter.FilterFramePositions` | Golf_tracker.py:44-46 | the map is the centres of the accepted detections recorded in order; rejected detections leave it unchanged |
| `MovementFilter.RecordKeys` | Golf_tracker.py:44-46 | recording accepted detections adds exactly their labels to the map's keys |
| `MovementFilter.RecordLatest` | Golf_tracker.py:44-46 | a label maps to the centre of the last accepted detection with that label |
| `MovementFilter.RecordUntouched` | Golf_tracker.py:44-46 | a label with no accepted detection keeps its old centre |
| `MovementFilter.FilterFrameAppend` | Golf_tracker.py:29-46 | filtering two pieces one after the other equals filtering them joined; the second starts from the map the first left |
| `MovementFilter.FilterTracksFlatten` | Golf_tracker.py:27-48 | frame boundaries change no decision: the joined output is the filter run once over all detections joined, with the same final map |
| `MovementFilter.KeysAreAcceptedLabels` | Golf_tracker.py:27-46 | after a run from the empty map, the map's keys are exactly the labels of the detections accepted so far |
| `MovementFilter.FirstSightingAccepted` | Golf_tracker.py:38-46 | a confident detection whose label no earlier confident detection had is always accepted, and its centre is recorded |
| `MovementFilter.DecisionForKnownLabel` | Golf_tracker.py:32-46 | for a label seen before at distance d, the detection is kept iff it passes the confidence test and d >= threshold; otherwise state and map are unchanged |
| `MovementFilter.NoLowConfidenceOutput` | Golf_tracker.py:32-33 | no output detection has a score below the threshold; one without a score appears only when the threshold is <= 0 |
| `MovementFilter.FirstFrameOfOne` | Golf_tracker.py:38-48 | a first frame with one confident detection is kept and records its centre |
| `MovementFilter.SecondFrameOfOne` | Golf_tracker.py:40-48 | a second one-detection frame of the same label that is not within the threshold is kept |
| `MovementFilter.StationaryRepeatDropped` | Golf_tracker.py:40-42 | the same label at an identical centre in the next frame is dropped at threshold 0.01 |
| `MovementFilter.MovingBallKept` | Golf_tracker.py:40-46 | a centre moving from (0, 0) to (0.02, 0.02) is kept at threshold 0.01 |
| `MovementFilter.MoveOfExactlyThresholdKept` | Golf_tracker.py:40-42 | a centre moving by exactly the threshold is kept (strict comparison) |
| `MovementFilter.MissingScoreDropped` | Golf_tracker.py:32-33 | a detection without a score is dropped under a positive threshold |
| `TraceAnnotation.TruncateToInt` | Golf_tracker.py:99-100 | Python's `int()` on a real; `TruncateTowardZero` states how it rounds |
| `TraceAnnotation.PixelCenter` | Golf_tracker.py:98-100 | the box centre scaled by the frame's width (`shape[1]`) and height (`shape[0]`) and passed through `int()`, the point appended to the buffer |
| `TraceAnnotation.TruncateTowardZero` | Golf_tracker.py:99-100 | `int()` truncates toward zero: the result is within 1 of the value, on the zero side |
| `TraceAnnotation.FramePoints` | Golf_tracker.py:97-101 | a frame contributes exactly one pixel centre per detection |
| `TraceAnnotation.FramePointsAt` | Golf_tracker.py:97-101 | the k-th centre a frame contributes is the pixel centre of its k-th detection |
| `TraceAnnotation.SliceFrom` | Golf_tracker.py:105 | Python's `xs[start:]` for every integer start: a negative start counts from the end and is clamped at 0, a start past the end gives nothing |
| `TraceAnnotation.TracePoints` | Golf_tracker.py:105 | `ball_trace[-trace_tail_len:]`; `TracePointsAreLast` states which points it selects |
| `TraceAnnotation.TracePointsAreLast` | Golf_tracker.py:105 | for a positive tail length, the selected points are the last min(tail, len) entries of the buffer; for 0, the whole buffer |
| `TraceAnnotation.Ages` | Golf_tracker.py:106 | `np.arange(n, 0, -1)` has max(n, 0) entries, none for n <= 0 |
| `TraceAnnotation.AgesAt` | Golf_tracker.py:106 | entry i of `np.arange(n, 0, -1)` is n - i |
| `TraceAnnotation.PairWithAgesAt` | Golf_tracker.py:108-111 | the i-th trace point is drawn with `alphas[i]`: mark i pairs point i with age i |
| `TraceAnnotation.TraceAfter` | Golf_tracker.py:92-101 | the buffer after the first k zipped pairs: the pixel centres of their detections, frame by frame |
| `TraceAnnotation.TraceMarks` | Golf_tracker.py:103-111 | the marks drawn for a buffer: none for at most one point, else the tail paired with `alphas` by index, or None where `alphas[i]` raises the index error |
| `TraceAnnotation.Annotation` | Golf_tracker.py:95-114 | the annotated frame of pair k: its frame with the marks of the buffer after pair k, or None when drawing fails |
| `TraceAnnotation.AnnotateAll` | Golf_tracker.py:91-115 | the loop's outcome over the first k pairs: the list of annotated frames, or the index of the pair whose drawing raised, which ends the loop |
| `TraceAnnotation.AppendCenters` | Golf_tracker.py:97-101 | the inner loop appends exactly the frame's pixel centres to the buffer |
| `TraceAnnotation.DrawTrace` | Golf_tracker.py:103-113 | the drawing loop produces exactly `TraceMarks`: nothing for a buffer of at most one point, else tail points paired with ages, or the index error |
| `TraceAnnotation.AnnotateFrames` | Golf_tracker.py:91-115 | the loop over `zip(frames, filtered_tracks)` computes `AnnotateAll` over min(len(frames), len(filtered_tracks)) pairs, the buffer after each pair being `TraceAfter` |
| `TraceAnnotation.AnnotateAllLength` | Golf_tracker.py:94-115 | when no drawing fails, there is one annotated frame per zipped pair |
| `TraceAnnotation.AnnotateAllAt` | Golf_tracker.py:94-115 | when no drawing fails, the j-th annotated frame is frame j with the marks drawn from the buffer after pair j |
| `TraceAnnotation.AnnotateAllFailure` | Golf_tracker.py:103-111 | a failure names a pair within range whose drawing raised the index error |
| `TraceAnnotation.AnnotateAllFailureIsFirst` | Golf_tracker.py:94-111 | every pair before the failing one was drawn, so the failure is the first index error |
| `TraceAnnotation.AnnotateAllFailureIsFinal` | Golf_tracker.py:94-115 | once a pair fails, later pairs change nothing: the exception ends the loop |
| `TraceAnnotation.AnnotateAllTotal` | Golf_tracker.py:94-115 | under a positive tail length the loop never fails and yields one annotated frame per pair |
| `TraceAnnotation.TraceMarksFail` | Golf_tracker.py:103-111 | drawing fails iff the buffer holds 2+ points, the tail length is <= 0 and the slice `[-n:]` is non-empty |
| `TraceAnnotation.TraceMarksTotal` | Golf_tracker.py:103-111 | under a positive tail length drawing never fails |
| `TraceAnnotation.TraceMarksContents` | Golf_tracker.py:103-111 | under a positive tail length: no marks while the buffer holds at most one point, else the last min(tail, len) points oldest first, the i-th with age tail - i |
| `TraceAnnotation.NewestMarkAge` | Golf_tracker.py:105-111 | the newest point is drawn last with age tail - min(tail, len) + 1, which is 1 iff the buffer holds at least tail points |
| `TraceAnnotation.TraceGrowsByFrame` | Golf_tracker.py:94-101 | each pair extends the buffer by exactly its detections' centres, keeping what was there |
| `TraceAnnotation.TraceNeverShrinks` | Golf_tracker.py:92-101 | an earlier buffer is a prefix of every later one |
| `TraceAnnotation.TraceLength` | Golf_tracker.py:92-101 | after k pairs the buffer holds one point per detection of those k frames |
| `Pipeline.FilterAndAnnotate` | Golf_tracker.py:87-115 | the result is `AnnotateAll` run on `FilterTracks` of the raw tracks from the empty map, over min(len(frames), len(raw_tracks)) pairs; on success one annotated frame per pair, each built on its input frame, whatever the filter dropped; it cannot fail under a positive tail length |

## Left out

- The Gradio interface, its event wiring and `reset_outputs` (Golf_tracker.py:137-238): user interface only.
- The external vision services for frame extraction, tracking (with the prompt "Ball") and video saving, and the temporary output path they write to (Golf_tracker.py:63, 69-75, 83, 120): opaque remote calls and file-system setup. Their inputs and results are parameters of the model.
- Circles, `cv2.addWeighted` and the `np.exp(-0.2 * age)` opacities (Golf_tracker.py:104-111): floating-point compositing in foreign libraries. Only the (point, age) pairs that drive them are modelled.
- The filter's box centre `(xmin + xmax) / 2` and the `np.linalg.norm` distance test (Golf_tracker.py:22-23, 35-36, 41) are computed in exact real arithmetic. A tie that the source decides through float rounding may come out the other way; `MoveOfExactlyThresholdKept` holds for exact values.
- Floating-point rounding in the pixel conversion and the `int32` cast of the trace points (Golf_tracker.py:99-100, 105): reals and unbounded integers are used instead.
- Loading the API key, the error messages and the exception handler (Golf_tracker.py:9-17, 66-67, 125-135): environment I/O and printing. The one exception the loop can raise itself, the index error, is modelled as `Failure`.
- The early exits for a missing upload or no frames, the progress flags and the `yield`s (Golf_tracker.py:54-61, 76-81, 84-86, 88-89, 116-123): UI progress plumbing.
- `show_trace` is always true in the source (Golf_tracker.py:64), so the model draws unconditionally.
- The images themselves: frames are opaque values with a height and width, and copying a frame is not modelled.
- A detection without `bbox` or `label` raises a key error in the source. The model's detections always carry both, since the tracking service supplies them.
- `setup.py` entirely: environment setup scripting.
