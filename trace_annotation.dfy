/**
 * The annotation loop of process_video: frames are zipped with the filtered detections; for
 * each pair the pixel centre of every detection is appended to a trace buffer that only
 * grows, and once the buffer holds more than one point, its last `traceTailLen` points are
 * paired with the age indices of np.arange(traceTailLen, 0, -1), oldest point first.
 * Images are opaque; the circles and the alpha compositing are not modelled, only the
 * (point, age) marks that drive them.
 */
module TraceAnnotation {
  import opened Wrappers
  import opened Sequences
  import opened Detections

  /** A frame: an opaque image with its pixel height (shape[0]) and width (shape[1]). */
  datatype Frame<Image> = Frame(image: Image, height: nat, width: nat)

  datatype Pixel = Pixel(x: int, y: int)

  /** One trace point to draw and its age index, which selects its opacity. */
  datatype Mark = Mark(point: Pixel, age: int)

  /** The copied frame together with the marks composited onto it. */
  datatype AnnotatedFrame<Image> = AnnotatedFrame(frame: Frame<Image>, marks: seq<Mark>)

  function Min(a: int, b: int): int { if a <= b then a else b }

  function Max(a: int, b: int): int { if a <= b then b else a }

  /** Python's int() on a number. */
  function TruncateToInt(v: real): int
  {
    if 0.0 <= v then v.Floor else -((-v).Floor)
  }

  /** int() truncates toward zero: it drops the fractional part on the side of zero. */
  lemma TruncateTowardZero(v: real)
    ensures 0.0 <= v ==> TruncateToInt(v) as real <= v < TruncateToInt(v) as real + 1.0
    ensures v < 0.0 ==> TruncateToInt(v) as real - 1.0 < v <= TruncateToInt(v) as real
  {
  }

  /** The pixel centre of a detection's box in a frame. */
  function PixelCenter<I>(f: Frame<I>, d: Detection): Pixel
  {
    Pixel(TruncateToInt((d.bbox.xmin + d.bbox.xmax) / 2.0 * f.width as real),
          TruncateToInt((d.bbox.ymin + d.bbox.ymax) / 2.0 * f.height as real))
  }

  /** The points one frame appends to the trace buffer: one per detection, in order. */
  function FramePoints<I>(f: Frame<I>, dets: seq<Detection>): (points: seq<Pixel>)
    ensures |points| == |dets|
    decreases |dets|
  {
    if dets == [] then [] else FramePoints(f, DropLast(dets)) + [PixelCenter(f, Last(dets))]
  }

  /** The k-th point of a frame is the pixel centre of its k-th detection. */
  lemma {:induction false} FramePointsAt<I>(f: Frame<I>, dets: seq<Detection>, k: nat)
    requires k < |dets|
    ensures FramePoints(f, dets)[k] == PixelCenter(f, dets[k])
    decreases |dets|
  {
    if k < |dets| - 1 {
      FramePointsAt(f, DropLast(dets), k);
    }
  }

  /** The trace buffer after the first `k` zipped pairs. */
  function TraceAfter<I>(frames: seq<Frame<I>>, tracks: seq<seq<Detection>>, k: nat): seq<Pixel>
    requires k <= |frames| && k <= |tracks|
  {
    if k == 0 then [] else TraceAfter(frames, tracks, k - 1) + FramePoints(frames[k - 1], tracks[k - 1])
  }

  /** Python's xs[start:], where a negative start counts from the end. */
  function SliceFrom<T>(xs: seq<T>, start: int): seq<T>
  {
    if start < 0 then xs[Max(0, |xs| + start)..] else xs[Min(start, |xs|)..]
  }

  /** ball_trace[-traceTailLen:]: for a positive length, the last min(traceTailLen, |trace|) points. */
  function TracePoints(trace: seq<Pixel>, traceTailLen: int): seq<Pixel>
  {
    SliceFrom(trace, -traceTailLen)
  }

  /** For a positive tail length the selection is the last min(traceTailLen, |trace|) points; for 0 it is all of them. */
  lemma TracePointsAreLast(trace: seq<Pixel>, traceTailLen: int)
    ensures 1 <= traceTailLen ==>
      |TracePoints(trace, traceTailLen)| == Min(traceTailLen, |trace|)
      && TracePoints(trace, traceTailLen) == trace[|trace| - Min(traceTailLen, |trace|)..]
    ensures traceTailLen == 0 ==> TracePoints(trace, traceTailLen) == trace
  {
  }

  /** np.arange(n, 0, -1): n, n - 1, ..., 1, and empty when n <= 0. */
  function Ages(n: int): (ages: seq<int>)
    ensures |ages| == Max(n, 0)
    decreases n
  {
    if n <= 0 then [] else [n] + Ages(n - 1)
  }

  /** Entry i of np.arange(n, 0, -1) is n - i. */
  lemma {:induction false} AgesAt(n: int, i: nat)
    requires i < |Ages(n)|
    ensures Ages(n)[i] == n - i
    decreases i
  {
    if 0 < i {
      AgesAt(n - 1, i - 1);
    }
  }

  /**
   * The marks drawn once the buffer holds `trace`; None when the i-th point has no
   * alphas[i], where the source raises an index error.
   */
  function TraceMarks(trace: seq<Pixel>, traceTailLen: int): Option<seq<Mark>>
  {
    if |trace| <= 1 then Some([])
    else
      var points := TracePoints(trace, traceTailLen);
      var ages := Ages(traceTailLen);
      if |ages| < |points| then None
      else Some(PairWithAges(points, ages))
  }

  /** enumerate(trace_points) paired with alphas: the i-th point with the i-th age. */
  function PairWithAges(points: seq<Pixel>, ages: seq<int>): (marks: seq<Mark>)
    requires |points| <= |ages|
    ensures |marks| == |points|
    decreases |points|
  {
    if points == [] then [] else PairWithAges(DropLast(points), ages) + [Mark(Last(points), ages[|points| - 1])]
  }

  /** The i-th mark pairs the i-th point with the i-th age. */
  lemma {:induction false} PairWithAgesAt(points: seq<Pixel>, ages: seq<int>, i: nat)
    requires |points| <= |ages| && i < |points|
    ensures PairWithAges(points, ages)[i] == Mark(points[i], ages[i])
    decreases |points|
  {
    if i < |points| - 1 {
      PairWithAgesAt(DropLast(points), ages, i);
    }
  }

  /** The annotated frame of the k-th zipped pair, or None when drawing it fails. */
  function Annotation<I>(frames: seq<Frame<I>>, tracks: seq<seq<Detection>>, traceTailLen: int, k: nat): Option<AnnotatedFrame<I>>
    requires k < |frames| && k < |tracks|
  {
    var marks := TraceMarks(TraceAfter(frames, tracks, k + 1), traceTailLen);
    if marks.Some? then Some(AnnotatedFrame(frames[k], marks.value)) else None
  }

  /** The inner loop over one frame's detections, appending their pixel centres to the buffer. */
  method AppendCenters<I>(ballTrace: seq<Pixel>, frame: Frame<I>, detections: seq<Detection>)
    returns (extended: seq<Pixel>)
    ensures extended == ballTrace + FramePoints(frame, detections)
  {
    extended := ballTrace;
    var j := 0;
    while j < |detections|
      invariant 0 <= j <= |detections|
      invariant extended == ballTrace + FramePoints(frame, detections[..j])
    {
      assert DropLast(detections[..j + 1]) == detections[..j];
      extended := extended + [PixelCenter(frame, detections[j])];
      j := j + 1;
    }
    assert detections[..j] == detections;
  }

  /**
   * The drawing step of one frame: when the buffer holds more than one point, walk its tail
   * and pair the i-th point with alphas[i]; None where that index is out of range.
   */
  method DrawTrace(ballTrace: seq<Pixel>, traceTailLen: int) returns (marks: Option<seq<Mark>>)
    ensures marks == TraceMarks(ballTrace, traceTailLen)
  {
    if |ballTrace| <= 1 {
      return Some([]);
    }
    var tracePoints := TracePoints(ballTrace, traceTailLen);
    var ages := Ages(traceTailLen);
    var drawn: seq<Mark> := [];
    var i := 0;
    while i < |tracePoints|
      invariant 0 <= i <= |tracePoints| && i <= |ages|
      invariant |drawn| == i
      invariant forall q :: 0 <= q < i ==> drawn[q] == Mark(tracePoints[q], ages[q])
    {
      if |ages| <= i {
        TraceMarksOverrun(ballTrace, traceTailLen);
        return None;
      }
      drawn := drawn + [Mark(tracePoints[i], ages[i])];
      i := i + 1;
    }
    TraceMarksDrawn(ballTrace, traceTailLen, drawn);
    return Some(drawn);
  }

  lemma TraceMarksOverrun(trace: seq<Pixel>, traceTailLen: int)
    requires 1 < |trace| && |Ages(traceTailLen)| < |TracePoints(trace, traceTailLen)|
    ensures TraceMarks(trace, traceTailLen) == None
  {
  }

  lemma TraceMarksDrawn(trace: seq<Pixel>, traceTailLen: int, drawn: seq<Mark>)
    requires 1 < |trace|
    requires |drawn| == |TracePoints(trace, traceTailLen)| <= |Ages(traceTailLen)|
    requires forall q :: 0 <= q < |drawn| ==> drawn[q] == Mark(TracePoints(trace, traceTailLen)[q], Ages(traceTailLen)[q])
    ensures TraceMarks(trace, traceTailLen) == Some(drawn)
  {
    var points, ages := TracePoints(trace, traceTailLen), Ages(traceTailLen);
    forall q | 0 <= q < |drawn| ensures drawn[q] == PairWithAges(points, ages)[q] {
      PairWithAgesAt(points, ages, q);
    }
    assert drawn == PairWithAges(points, ages);
  }

  /**
   * The annotated frames of the first `k` zipped pairs, or the index of the first pair
   * whose drawing fails: the exception ends the loop.
   */
  function AnnotateAll<I>(frames: seq<Frame<I>>, tracks: seq<seq<Detection>>, traceTailLen: int, k: nat): Result<seq<AnnotatedFrame<I>>, nat>
    requires k <= |frames| && k <= |tracks|
  {
    if k == 0 then Success([])
    else
      match AnnotateAll(frames, tracks, traceTailLen, k - 1)
      case Failure(e) => Failure(e)
      case Success(done) =>
        match Annotation(frames, tracks, traceTailLen, k - 1)
        case None => Failure(k - 1)
        case Some(a) => Success(done + [a])
  }

  /**
   * The loop of process_video from the (frame, detections) zip to the list of annotated
   * frames. On an index error it reports the position of the pair being drawn.
   */
  method AnnotateFrames<I>(frames: seq<Frame<I>>, filteredTracks: seq<seq<Detection>>, traceTailLen: int)
    returns (r: Result<seq<AnnotatedFrame<I>>, nat>)
    ensures r == AnnotateAll(frames, filteredTracks, traceTailLen, Min(|frames|, |filteredTracks|))
  {
    var pairs := Min(|frames|, |filteredTracks|);
    var annotatedFrames: seq<AnnotatedFrame<I>> := [];
    var ballTrace: seq<Pixel> := [];
    var k := 0;
    while k < pairs
      invariant 0 <= k <= pairs
      invariant ballTrace == TraceAfter(frames, filteredTracks, k)
      invariant AnnotateAll(frames, filteredTracks, traceTailLen, k) == Success(annotatedFrames)
    {
      var frame, detections := frames[k], filteredTracks[k];
      ballTrace := AppendCenters(ballTrace, frame, detections);
      var marks := DrawTrace(ballTrace, traceTailLen);
      if marks.None? {
        AnnotateAllFailureIsFinal(frames, filteredTracks, traceTailLen, k + 1, pairs);
        return Failure(k);
      }
      annotatedFrames := annotatedFrames + [AnnotatedFrame(frame, marks.value)];
      k := k + 1;
    }
    return Success(annotatedFrames);
  }

  /** Once a pair fails, the loop's outcome is that failure. */
  lemma {:induction false} AnnotateAllFailureIsFinal<I>(frames: seq<Frame<I>>, tracks: seq<seq<Detection>>, traceTailLen: int, j: nat, k: nat)
    requires j <= k <= |frames| && k <= |tracks|
    requires AnnotateAll(frames, tracks, traceTailLen, j).Failure?
    ensures AnnotateAll(frames, tracks, traceTailLen, k) == AnnotateAll(frames, tracks, traceTailLen, j)
    decreases k - j
  {
    if j < k {
      AnnotateAllFailureIsFinal(frames, tracks, traceTailLen, j, k - 1);
      var before := AnnotateAll(frames, tracks, traceTailLen, k - 1);
      assert before.Failure?;
      assert AnnotateAll(frames, tracks, traceTailLen, k) == Failure(before.error);
    }
  }

  /** On success there is one annotated frame per pair. */
  lemma {:induction false} AnnotateAllLength<I>(frames: seq<Frame<I>>, tracks: seq<seq<Detection>>, traceTailLen: int, k: nat)
    requires k <= |frames| && k <= |tracks|
    requires AnnotateAll(frames, tracks, traceTailLen, k).Success?
    ensures |AnnotateAll(frames, tracks, traceTailLen, k).value| == k
  {
    if k > 0 {
      AnnotateAllLength(frames, tracks, traceTailLen, k - 1);
    }
  }

  /** On success the j-th annotated frame is the one drawn for the j-th pair. */
  lemma {:induction false} AnnotateAllAt<I>(frames: seq<Frame<I>>, tracks: seq<seq<Detection>>, traceTailLen: int, k: nat, j: nat)
    requires j < k <= |frames| && k <= |tracks|
    requires AnnotateAll(frames, tracks, traceTailLen, k).Success?
    ensures |AnnotateAll(frames, tracks, traceTailLen, k).value| == k
    ensures Annotation(frames, tracks, traceTailLen, j) == Some(AnnotateAll(frames, tracks, traceTailLen, k).value[j])
  {
    var before, last := AnnotateAll(frames, tracks, traceTailLen, k - 1), Annotation(frames, tracks, traceTailLen, k - 1);
    assert before.Success? && last.Some?;
    var all := before.value + [last.value];
    assert AnnotateAll(frames, tracks, traceTailLen, k) == Success(all);
    AnnotateAllLength(frames, tracks, traceTailLen, k - 1);
    if j < k - 1 {
      AnnotateAllAt(frames, tracks, traceTailLen, k - 1, j);
      assert all[j] == before.value[j];
    }
  }

  /** A failure names a pair whose drawing fails. */
  lemma {:induction false} AnnotateAllFailure<I>(frames: seq<Frame<I>>, tracks: seq<seq<Detection>>, traceTailLen: int, k: nat)
    requires k <= |frames| && k <= |tracks|
    requires AnnotateAll(frames, tracks, traceTailLen, k).Failure?
    ensures AnnotateAll(frames, tracks, traceTailLen, k).error < k
    ensures Annotation(frames, tracks, traceTailLen, AnnotateAll(frames, tracks, traceTailLen, k).error).None?
  {
    if AnnotateAll(frames, tracks, traceTailLen, k - 1).Failure? {
      AnnotateAllFailure(frames, tracks, traceTailLen, k - 1);
    }
  }

  /** The failing pair is the first: every pair before it was drawn. */
  lemma {:induction false} AnnotateAllFailureIsFirst<I>(frames: seq<Frame<I>>, tracks: seq<seq<Detection>>, traceTailLen: int, k: nat, j: nat)
    requires k <= |frames| && k <= |tracks|
    requires AnnotateAll(frames, tracks, traceTailLen, k).Failure?
    requires j < k && j < AnnotateAll(frames, tracks, traceTailLen, k).error
    ensures Annotation(frames, tracks, traceTailLen, j).Some?
  {
    AnnotateAllFailure(frames, tracks, traceTailLen, k);
    var before := AnnotateAll(frames, tracks, traceTailLen, k - 1);
    if before.Failure? {
      AnnotateAllFailureIsFirst(frames, tracks, traceTailLen, k - 1, j);
    } else {
      AnnotateAllAt(frames, tracks, traceTailLen, k - 1, j);
    }
  }

  /** Under a positive tail length no pair fails, so there is one annotated frame per pair. */
  lemma {:induction false} AnnotateAllTotal<I>(frames: seq<Frame<I>>, tracks: seq<seq<Detection>>, traceTailLen: int, k: nat)
    requires k <= |frames| && k <= |tracks|
    requires 1 <= traceTailLen
    ensures AnnotateAll(frames, tracks, traceTailLen, k).Success?
    ensures |AnnotateAll(frames, tracks, traceTailLen, k).value| == k
  {
    if k > 0 {
      AnnotateAllTotal(frames, tracks, traceTailLen, k - 1);
      TraceMarksTotal(TraceAfter(frames, tracks, k), traceTailLen);
    }
  }

  /** Drawing fails exactly for a non-positive tail length whose slice of a trace of 2+ points is non-empty. */
  lemma TraceMarksFail(trace: seq<Pixel>, traceTailLen: int)
    ensures TraceMarks(trace, traceTailLen).None? <==> 1 < |trace| && traceTailLen <= 0 && -traceTailLen < |trace|
  {
  }

  /** Under a positive tail length drawing never fails. */
  lemma TraceMarksTotal(trace: seq<Pixel>, traceTailLen: int)
    ensures 1 <= traceTailLen ==> TraceMarks(trace, traceTailLen).Some?
  {
  }

  /**
   * Under a positive tail length: nothing is drawn while the buffer holds at most one point;
   * otherwise the marks are the last min(traceTailLen, |trace|) points, oldest first, the
   * i-th paired with age traceTailLen - i.
   */
  lemma TraceMarksContents(trace: seq<Pixel>, traceTailLen: int)
    requires 1 <= traceTailLen
    ensures TraceMarks(trace, traceTailLen).Some?
    ensures |trace| <= 1 ==> TraceMarks(trace, traceTailLen).value == []
    ensures 1 < |trace| ==>
      var marks := TraceMarks(trace, traceTailLen).value;
      |marks| == Min(traceTailLen, |trace|)
      && forall i :: 0 <= i < |marks| ==> marks[i] == Mark(trace[|trace| - |marks| + i], traceTailLen - i)
  {
    TracePointsAreLast(trace, traceTailLen);
    if 1 < |trace| {
      var points, ages := TracePoints(trace, traceTailLen), Ages(traceTailLen);
      var marks := TraceMarks(trace, traceTailLen).value;
      assert marks == PairWithAges(points, ages);
      forall i | 0 <= i < |marks| ensures marks[i] == Mark(trace[|trace| - |marks| + i], traceTailLen - i) {
        PairWithAgesAt(points, ages, i);
        AgesAt(traceTailLen, i);
      }
    }
  }

  /**
   * The newest point gets age traceTailLen - min(traceTailLen, |trace|) + 1: age 1 only once
   * the buffer holds at least traceTailLen points.
   */
  lemma NewestMarkAge(trace: seq<Pixel>, traceTailLen: int)
    requires 1 <= traceTailLen && 1 < |trace|
    ensures TraceMarks(trace, traceTailLen).Some?
    ensures var marks := TraceMarks(trace, traceTailLen).value;
      marks != [] && marks[|marks| - 1].point == trace[|trace| - 1]
      && marks[|marks| - 1].age == traceTailLen - Min(traceTailLen, |trace|) + 1
      && (marks[|marks| - 1].age == 1 <==> traceTailLen <= |trace|)
  {
    TraceMarksContents(trace, traceTailLen);
  }

  /** Each pair appends exactly its detections' centres to the buffer. */
  lemma TraceGrowsByFrame<I>(frames: seq<Frame<I>>, tracks: seq<seq<Detection>>, k: nat)
    requires k < |frames| && k < |tracks|
    ensures |TraceAfter(frames, tracks, k + 1)| == |TraceAfter(frames, tracks, k)| + |tracks[k]|
    ensures TraceAfter(frames, tracks, k + 1)[..|TraceAfter(frames, tracks, k)|] == TraceAfter(frames, tracks, k)
    ensures forall q :: 0 <= q < |tracks[k]| ==>
      TraceAfter(frames, tracks, k + 1)[|TraceAfter(frames, tracks, k)| + q] == PixelCenter(frames[k], tracks[k][q])
  {
    var before, points := TraceAfter(frames, tracks, k), FramePoints(frames[k], tracks[k]);
    assert TraceAfter(frames, tracks, k + 1) == before + points;
    forall q | 0 <= q < |tracks[k]|
      ensures TraceAfter(frames, tracks, k + 1)[|before| + q] == PixelCenter(frames[k], tracks[k][q])
    {
      FramePointsAt(frames[k], tracks[k], q);
    }
  }

  /** The buffer never shrinks: an earlier buffer is a prefix of every later one. */
  lemma {:induction false} TraceNeverShrinks<I>(frames: seq<Frame<I>>, tracks: seq<seq<Detection>>, j: nat, k: nat)
    requires j <= k <= |frames| && k <= |tracks|
    ensures |TraceAfter(frames, tracks, j)| <= |TraceAfter(frames, tracks, k)|
    ensures TraceAfter(frames, tracks, k)[..|TraceAfter(frames, tracks, j)|] == TraceAfter(frames, tracks, j)
    decreases k - j
  {
    if j < k {
      TraceNeverShrinks(frames, tracks, j, k - 1);
      var a, b := TraceAfter(frames, tracks, j), TraceAfter(frames, tracks, k - 1);
      assert TraceAfter(frames, tracks, k) == b + FramePoints(frames[k - 1], tracks[k - 1]);
      assert (b + FramePoints(frames[k - 1], tracks[k - 1]))[..|a|] == b[..|a|];
    }
  }

  /** The buffer after k pairs holds the centres of all their detections, frame by frame. */
  lemma {:induction false} TraceLength<I>(frames: seq<Frame<I>>, tracks: seq<seq<Detection>>, k: nat)
    requires k <= |frames| && k <= |tracks|
    ensures |TraceAfter(frames, tracks, k)| == |Flatten(tracks[..k])|
  {
    if k > 0 {
      TraceLength(frames, tracks, k - 1);
      assert DropLast(tracks[..k]) == tracks[..k - 1];
    }
  }
}
