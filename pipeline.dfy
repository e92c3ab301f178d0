/**
 * The middle of process_video: the tracking service's per-frame detections go through the
 * movement filter, and the frames are annotated with the filtered detections. Frame
 * extraction, tracking and encoding are external services and are not modelled; their
 * results are the parameters here.
 */
module Pipeline {
  import opened Wrappers
  import opened Detections
  import opened MovementFilter
  import opened TraceAnnotation

  /**
   * The annotation loop run on the filter's output: one annotated frame per zipped pair,
   * each the copy of its input frame, whatever the filter dropped; it cannot fail under a
   * positive tail length.
   */
  method FilterAndAnnotate<I>(frames: seq<Frame<I>>, rawTracks: seq<seq<Detection>>,
                              movementThresh: real, confidenceThresh: real, traceTailLen: int)
    returns (r: Result<seq<AnnotatedFrame<I>>, nat>)
    ensures r.Success? ==> |r.value| == Min(|frames|, |rawTracks|)
    ensures r.Success? ==> forall k :: 0 <= k < |r.value| ==> r.value[k].frame == frames[k]
    ensures 1 <= traceTailLen ==> r.Success?
    ensures |FilterTracks(map[], rawTracks, confidenceThresh, movementThresh).filtered| == |rawTracks|
    ensures r == AnnotateAll(frames, FilterTracks(map[], rawTracks, confidenceThresh, movementThresh).filtered,
                             traceTailLen, Min(|frames|, |rawTracks|))
  {
    var filteredTracks := FilterMovingObjects(rawTracks, confidenceThresh, movementThresh);
    FilterTracksFrames(map[], rawTracks, confidenceThresh, movementThresh);
    r := AnnotateFrames(frames, filteredTracks, traceTailLen);
    var pairs := Min(|frames|, |filteredTracks|);
    if r.Success? {
      AnnotateAllLength(frames, filteredTracks, traceTailLen, pairs);
      forall k | 0 <= k < |r.value| ensures r.value[k].frame == frames[k] {
        AnnotateAllAt(frames, filteredTracks, traceTailLen, pairs, k);
      }
    }
    if 1 <= traceTailLen {
      AnnotateAllTotal(frames, filteredTracks, traceTailLen, pairs);
    }
  }
}
