/**
 * The movement filter (filter_moving_objects): walks the per-frame detection lists in
 * order, drops detections below the confidence threshold and detections that have not
 * moved at least `moveThresh` since their label was last accepted, and remembers the
 * centre of every accepted detection per label.
 *
 * The functions FilterFrame and FilterTracks specify the two nested loops; the method
 * FilterMovingObjects runs the loops and is proved to compute them.
 */
module MovementFilter {
  import opened Wrappers
  import opened Sequences
  import opened Geometry
  import opened Detections

  /** previous_positions: label to the centre of its last accepted detection. */
  type Positions = map<string, Point>

  predicate PassesConfidence(d: Detection, confidenceThresh: real)
  {
    !(Score(d) < confidenceThresh)
  }

  /** The label was accepted before and the new centre is strictly within `moveThresh` of it. */
  predicate Stationary(positions: Positions, d: Detection, moveThresh: real)
  {
    d.tag in positions && WithinDistance(Center(d.bbox), positions[d.tag], moveThresh)
  }

  predicate Accepts(positions: Positions, d: Detection, confidenceThresh: real, moveThresh: real)
  {
    PassesConfidence(d, confidenceThresh) && !Stationary(positions, d, moveThresh)
  }

  /** What the inner loop has after some detections: the accepted ones and the position map. */
  datatype FrameState = FrameState(kept: seq<Detection>, positions: Positions)

  /** What the outer loop has after some frames: one output list per frame and the position map. */
  datatype TrackState = TrackState(filtered: seq<seq<Detection>>, positions: Positions)

  /** The inner loop over `dets`, starting from the position map `prev`. */
  function FilterFrame(prev: Positions, dets: seq<Detection>, confidenceThresh: real, moveThresh: real): FrameState
    decreases |dets|
  {
    if dets == [] then FrameState([], prev)
    else
      var s := FilterFrame(prev, DropLast(dets), confidenceThresh, moveThresh);
      var d := Last(dets);
      if Accepts(s.positions, d, confidenceThresh, moveThresh)
      then FrameState(s.kept + [d], s.positions[d.tag := Center(d.bbox)])
      else s
  }

  /** The outer loop over `tracks`; the position map is carried from frame to frame. */
  function FilterTracks(prev: Positions, tracks: seq<seq<Detection>>, confidenceThresh: real, moveThresh: real): TrackState
    decreases |tracks|
  {
    if tracks == [] then TrackState([], prev)
    else
      var s := FilterTracks(prev, DropLast(tracks), confidenceThresh, moveThresh);
      var f := FilterFrame(s.positions, Last(tracks), confidenceThresh, moveThresh);
      TrackState(s.filtered + [f.kept], f.positions)
  }

  /** The position map obtained by recording the centre of each detection of `accepted`, in order. */
  function Record(prev: Positions, accepted: seq<Detection>): Positions
    decreases |accepted|
  {
    if accepted == [] then prev
    else Record(prev, DropLast(accepted))[Last(accepted).tag := Center(Last(accepted).bbox)]
  }

  function Labels(ds: seq<Detection>): set<string>
  {
    set d | d in ds :: d.tag
  }

  method FilterMovingObjects(tracks: seq<seq<Detection>>, confidenceThresh: real, moveThresh: real)
    returns (filteredTracks: seq<seq<Detection>>)
    ensures filteredTracks == FilterTracks(map[], tracks, confidenceThresh, moveThresh).filtered
    ensures |filteredTracks| == |tracks|
    ensures forall i :: 0 <= i < |tracks| ==> IsSubsequence(filteredTracks[i], tracks[i])
    ensures forall i, d :: 0 <= i < |tracks| && d in filteredTracks[i] ==> PassesConfidence(d, confidenceThresh)
  {
    filteredTracks := [];
    var previousPositions: Positions := map[];
    var i := 0;
    while i < |tracks|
      invariant 0 <= i <= |tracks|
      invariant FilterTracks(map[], tracks[..i], confidenceThresh, moveThresh) == TrackState(filteredTracks, previousPositions)
    {
      var detections := tracks[i];
      ghost var start := previousPositions;
      var currentFrameDetections: seq<Detection> := [];
      var j := 0;
      while j < |detections|
        invariant 0 <= j <= |detections|
        invariant FilterFrame(start, detections[..j], confidenceThresh, moveThresh) == FrameState(currentFrameDetections, previousPositions)
      {
        var det := detections[j];
        assert DropLast(detections[..j + 1]) == detections[..j];
        if !(Score(det) < confidenceThresh) {
          var center := Center(det.bbox);
          var tag := det.tag;
          var moved := true;
          if tag in previousPositions {
            if WithinDistance(center, previousPositions[tag], moveThresh) {
              moved := false;
            }
          }
          if moved {
            previousPositions := previousPositions[tag := center];
            currentFrameDetections := currentFrameDetections + [det];
          }
        }
        j := j + 1;
      }
      assert detections[..j] == detections;
      assert DropLast(tracks[..i + 1]) == tracks[..i];
      filteredTracks := filteredTracks + [currentFrameDetections];
      i := i + 1;
    }
    assert tracks[..i] == tracks;
    FilterTracksFrames(map[], tracks, confidenceThresh, moveThresh);
    forall i | 0 <= i < |tracks|
      ensures IsSubsequence(filteredTracks[i], tracks[i])
      ensures forall d :: d in filteredTracks[i] ==> PassesConfidence(d, confidenceThresh)
    {
      FilterFrameSound(FilterTracks(map[], tracks[..i], confidenceThresh, moveThresh).positions, tracks[i], confidenceThresh, moveThresh);
    }
  }

  /** A frame's output keeps intra-frame order and only detections that pass the confidence test. */
  lemma {:induction false} FilterFrameSound(prev: Positions, dets: seq<Detection>, confidenceThresh: real, moveThresh: real)
    ensures IsSubsequence(FilterFrame(prev, dets, confidenceThresh, moveThresh).kept, dets)
    ensures forall e :: e in FilterFrame(prev, dets, confidenceThresh, moveThresh).kept ==> PassesConfidence(e, confidenceThresh)
    decreases |dets|
  {
    if dets != [] {
      var s := FilterFrame(prev, DropLast(dets), confidenceThresh, moveThresh);
      FilterFrameSound(prev, DropLast(dets), confidenceThresh, moveThresh);
      assert dets == DropLast(dets) + [Last(dets)];
      if Accepts(s.positions, Last(dets), confidenceThresh, moveThresh) {
        SubsequenceKeepLast(s.kept, DropLast(dets), Last(dets));
      } else {
        SubsequenceSkipLast(s.kept, DropLast(dets), Last(dets));
      }
    }
  }

  /** One output list per input frame, in frame order; frame i is filtered with the map left by frames 0..i-1. */
  lemma {:induction false} FilterTracksFrames(prev: Positions, tracks: seq<seq<Detection>>, confidenceThresh: real, moveThresh: real)
    ensures |FilterTracks(prev, tracks, confidenceThresh, moveThresh).filtered| == |tracks|
    ensures forall i :: 0 <= i < |tracks| ==>
      FilterTracks(prev, tracks, confidenceThresh, moveThresh).filtered[i]
        == FilterFrame(FilterTracks(prev, tracks[..i], confidenceThresh, moveThresh).positions, tracks[i], confidenceThresh, moveThresh).kept
    decreases |tracks|
  {
    if tracks != [] {
      var front := DropLast(tracks);
      FilterTracksFrames(prev, front, confidenceThresh, moveThresh);
      var s := FilterTracks(prev, front, confidenceThresh, moveThresh);
      var f := FilterFrame(s.positions, Last(tracks), confidenceThresh, moveThresh);
      assert FilterTracks(prev, tracks, confidenceThresh, moveThresh).filtered == s.filtered + [f.kept];
      forall i | 0 <= i < |tracks|
        ensures FilterTracks(prev, tracks, confidenceThresh, moveThresh).filtered[i]
          == FilterFrame(FilterTracks(prev, tracks[..i], confidenceThresh, moveThresh).positions, tracks[i], confidenceThresh, moveThresh).kept
      {
        if i < |front| {
          assert front[..i] == tracks[..i];
          assert (s.filtered + [f.kept])[i] == s.filtered[i];
          assert front[i] == tracks[i];
        } else {
          assert tracks[..i] == front;
          assert Last(tracks) == tracks[i];
        }
      }
    }
  }

  /** The map is exactly the centres of the accepted detections recorded in order: rejected ones leave it unchanged. */
  lemma {:induction false} FilterFramePositions(prev: Positions, dets: seq<Detection>, confidenceThresh: real, moveThresh: real)
    ensures FilterFrame(prev, dets, confidenceThresh, moveThresh).positions
      == Record(prev, FilterFrame(prev, dets, confidenceThresh, moveThresh).kept)
    decreases |dets|
  {
    if dets != [] {
      var s := FilterFrame(prev, DropLast(dets), confidenceThresh, moveThresh);
      FilterFramePositions(prev, DropLast(dets), confidenceThresh, moveThresh);
      var d := Last(dets);
      if Accepts(s.positions, d, confidenceThresh, moveThresh) {
        assert DropLast(s.kept + [d]) == s.kept;
      }
    }
  }

  /** Recording adds exactly the labels recorded. */
  lemma {:induction false} RecordKeys(prev: Positions, accepted: seq<Detection>)
    ensures Record(prev, accepted).Keys == prev.Keys + Labels(accepted)
    decreases |accepted|
  {
    if accepted != [] {
      RecordKeys(prev, DropLast(accepted));
      assert accepted == DropLast(accepted) + [Last(accepted)];
      assert Labels(accepted) == Labels(DropLast(accepted)) + {Last(accepted).tag};
    }
  }

  /** A label maps to the centre of the last recorded detection carrying it. */
  lemma {:induction false} RecordLatest(prev: Positions, accepted: seq<Detection>, k: nat)
    requires k < |accepted|
    requires forall j :: k < j < |accepted| ==> accepted[j].tag != accepted[k].tag
    ensures accepted[k].tag in Record(prev, accepted)
    ensures Record(prev, accepted)[accepted[k].tag] == Center(accepted[k].bbox)
    decreases |accepted|
  {
    if k < |accepted| - 1 {
      RecordLatest(prev, DropLast(accepted), k);
    }
  }

  /** A label never recorded keeps the value it had in `prev`. */
  lemma {:induction false} RecordUntouched(prev: Positions, accepted: seq<Detection>, tag: string)
    requires tag in prev && tag !in Labels(accepted)
    ensures tag in Record(prev, accepted) && Record(prev, accepted)[tag] == prev[tag]
    decreases |accepted|
  {
    if accepted != [] {
      assert Labels(DropLast(accepted)) <= Labels(accepted) by {
        forall d | d in DropLast(accepted) ensures d in accepted {
        }
      }
      assert Last(accepted) in accepted;
      RecordUntouched(prev, DropLast(accepted), tag);
    }
  }

  /** Inner loops over two pieces compose: the map the first leaves is where the second starts. */
  lemma {:induction false} FilterFrameAppend(prev: Positions, a: seq<Detection>, b: seq<Detection>, confidenceThresh: real, moveThresh: real)
    ensures FilterFrame(prev, a + b, confidenceThresh, moveThresh)
      == FrameState(FilterFrame(prev, a, confidenceThresh, moveThresh).kept
                      + FilterFrame(FilterFrame(prev, a, confidenceThresh, moveThresh).positions, b, confidenceThresh, moveThresh).kept,
                    FilterFrame(FilterFrame(prev, a, confidenceThresh, moveThresh).positions, b, confidenceThresh, moveThresh).positions)
    decreases |b|
  {
    if b == [] {
      assert a + b == a;
    } else {
      FilterFrameAppend(prev, a, DropLast(b), confidenceThresh, moveThresh);
      assert DropLast(a + b) == a + DropLast(b);
      assert Last(a + b) == Last(b);
    }
  }

  /**
   * Frame boundaries do not affect any decision: the concatenated output is the inner loop
   * run over the concatenated input, with one map for the whole run.
   */
  lemma {:induction false} FilterTracksFlatten(prev: Positions, tracks: seq<seq<Detection>>, confidenceThresh: real, moveThresh: real)
    ensures Flatten(FilterTracks(prev, tracks, confidenceThresh, moveThresh).filtered)
      == FilterFrame(prev, Flatten(tracks), confidenceThresh, moveThresh).kept
    ensures FilterTracks(prev, tracks, confidenceThresh, moveThresh).positions
      == FilterFrame(prev, Flatten(tracks), confidenceThresh, moveThresh).positions
    decreases |tracks|
  {
    if tracks != [] {
      var s := FilterTracks(prev, DropLast(tracks), confidenceThresh, moveThresh);
      FilterTracksFlatten(prev, DropLast(tracks), confidenceThresh, moveThresh);
      FilterFrameAppend(prev, Flatten(DropLast(tracks)), Last(tracks), confidenceThresh, moveThresh);
      var f := FilterFrame(s.positions, Last(tracks), confidenceThresh, moveThresh);
      assert DropLast(s.filtered + [f.kept]) == s.filtered;
    }
  }

  /** After a run from the empty map, its keys are exactly the labels accepted so far. */
  lemma KeysAreAcceptedLabels(tracks: seq<seq<Detection>>, confidenceThresh: real, moveThresh: real)
    ensures FilterTracks(map[], tracks, confidenceThresh, moveThresh).positions.Keys
      == Labels(Flatten(FilterTracks(map[], tracks, confidenceThresh, moveThresh).filtered))
  {
    FilterTracksFlatten(map[], tracks, confidenceThresh, moveThresh);
    FilterFramePositions(map[], Flatten(tracks), confidenceThresh, moveThresh);
    RecordKeys(map[], FilterFrame(map[], Flatten(tracks), confidenceThresh, moveThresh).kept);
  }

  /**
   * First sighting: a detection that passes the confidence test, whose label is not in the
   * starting map and passed the confidence test in no earlier detection, is accepted and
   * becomes that label's position.
   */
  lemma FirstSightingAccepted(prev: Positions, earlier: seq<Detection>, d: Detection, confidenceThresh: real, moveThresh: real)
    requires PassesConfidence(d, confidenceThresh)
    requires d.tag !in prev
    requires forall e :: e in earlier && PassesConfidence(e, confidenceThresh) ==> e.tag != d.tag
    ensures FilterFrame(prev, earlier + [d], confidenceThresh, moveThresh).kept
      == FilterFrame(prev, earlier, confidenceThresh, moveThresh).kept + [d]
    ensures FilterFrame(prev, earlier + [d], confidenceThresh, moveThresh).positions
      == FilterFrame(prev, earlier, confidenceThresh, moveThresh).positions[d.tag := Center(d.bbox)]
  {
    var s := FilterFrame(prev, earlier, confidenceThresh, moveThresh);
    FilterFrameSound(prev, earlier, confidenceThresh, moveThresh);
    SubsequenceElements(s.kept, earlier);
    FilterFramePositions(prev, earlier, confidenceThresh, moveThresh);
    RecordKeys(prev, s.kept);
    assert d.tag !in s.positions;
    assert DropLast(earlier + [d]) == earlier;
  }

  /**
   * A label seen before, at Euclidean distance `dist` from its last accepted centre: the
   * detection is kept exactly when it passes the confidence test and `dist >= moveThresh`
   * (strict less-than drops it); a dropped detection leaves the map unchanged.
   */
  lemma DecisionForKnownLabel(prev: Positions, earlier: seq<Detection>, d: Detection, confidenceThresh: real, moveThresh: real, dist: real)
    requires d.tag in FilterFrame(prev, earlier, confidenceThresh, moveThresh).positions
    requires IsDistance(Center(d.bbox), FilterFrame(prev, earlier, confidenceThresh, moveThresh).positions[d.tag], dist)
    ensures FilterFrame(prev, earlier + [d], confidenceThresh, moveThresh)
      == if PassesConfidence(d, confidenceThresh) && moveThresh <= dist
         then FrameState(FilterFrame(prev, earlier, confidenceThresh, moveThresh).kept + [d],
                         FilterFrame(prev, earlier, confidenceThresh, moveThresh).positions[d.tag := Center(d.bbox)])
         else FilterFrame(prev, earlier, confidenceThresh, moveThresh)
  {
    var s := FilterFrame(prev, earlier, confidenceThresh, moveThresh);
    WithinDistanceIffCloser(Center(d.bbox), s.positions[d.tag], moveThresh, dist);
    assert DropLast(earlier + [d]) == earlier;
  }

  /** No output detection scored below the threshold; one without a score survives only a threshold <= 0. */
  lemma NoLowConfidenceOutput(tracks: seq<seq<Detection>>, confidenceThresh: real, moveThresh: real)
    ensures |FilterTracks(map[], tracks, confidenceThresh, moveThresh).filtered| == |tracks|
    ensures forall i, d :: 0 <= i < |tracks| && d in FilterTracks(map[], tracks, confidenceThresh, moveThresh).filtered[i] ==>
      confidenceThresh <= Score(d) && (d.score.None? ==> confidenceThresh <= 0.0)
  {
    FilterTracksFrames(map[], tracks, confidenceThresh, moveThresh);
    forall i | 0 <= i < |tracks|
      ensures forall d :: d in FilterTracks(map[], tracks, confidenceThresh, moveThresh).filtered[i] ==> PassesConfidence(d, confidenceThresh)
    {
      FilterFrameSound(FilterTracks(map[], tracks[..i], confidenceThresh, moveThresh).positions, tracks[i], confidenceThresh, moveThresh);
    }
  }

  /** Two frames, same label, identical centres, threshold 0.01: the second is dropped. */
  lemma StationaryRepeatDropped(a: Detection)
    requires a == Detection(Box(0.5, 0.5, 0.5, 0.5), "Ball", Some(0.9))
    ensures FilterTracks(map[], [[a], [a]], 0.8, 0.01).filtered == [[a], []]
  {
    var m := map["Ball" := Point(0.5, 0.5)];
    FirstFrameOfOne(a, 0.8, 0.01);
    assert WithinDistance(Center(a.bbox), m[a.tag], 0.01);
    assert FilterFrame(m, [a], 0.8, 0.01) == FrameState([], m) by {
      assert DropLast([a]) == [];
    }
    assert DropLast([[a], [a]]) == [[a]];
  }

  /** A centre moving from (0, 0) to (0.02, 0.02), threshold 0.01: both are kept. */
  lemma MovingBallKept(a: Detection, b: Detection)
    requires a == Detection(Box(0.0, 0.0, 0.0, 0.0), "Ball", Some(0.9))
    requires b == Detection(Box(0.02, 0.02, 0.02, 0.02), "Ball", Some(0.9))
    ensures FilterTracks(map[], [[a], [b]], 0.8, 0.01).filtered == [[a], [b]]
  {
    assert Center(a.bbox) == Point(0.0, 0.0);
    assert Center(b.bbox) == Point(0.02, 0.02);
    assert SquaredDistance(Point(0.02, 0.02), Point(0.0, 0.0)) == 0.0008;
    assert !WithinDistance(Center(b.bbox), Center(a.bbox), 0.01);
    SecondFrameOfOne(a, b, 0.8, 0.01);
  }

  /** A centre moving by exactly the threshold is kept: the comparison is strict. */
  lemma MoveOfExactlyThresholdKept(a: Detection, b: Detection)
    requires a == Detection(Box(0.0, 0.0, 0.0, 0.0), "Ball", Some(0.9))
    requires b == Detection(Box(0.01, 0.0, 0.01, 0.0), "Ball", Some(0.9))
    ensures FilterTracks(map[], [[a], [b]], 0.8, 0.01).filtered == [[a], [b]]
  {
    assert Center(a.bbox) == Point(0.0, 0.0);
    assert Center(b.bbox) == Point(0.01, 0.0);
    assert SquaredDistance(Point(0.01, 0.0), Point(0.0, 0.0)) == 0.0001;
    assert !WithinDistance(Center(b.bbox), Center(a.bbox), 0.01);
    SecondFrameOfOne(a, b, 0.8, 0.01);
  }

  /** A detection without a score is dropped under a positive threshold. */
  lemma MissingScoreDropped(a: Detection)
    requires a == Detection(Box(0.5, 0.5, 0.5, 0.5), "Ball", None)
    ensures FilterTracks(map[], [[a]], 0.5, 0.01).filtered == [[]]
  {
    assert FilterFrame(map[], [a], 0.5, 0.01) == FrameState([], map[]) by {
      assert DropLast([a]) == [];
    }
    assert DropLast([[a]]) == [];
  }

  /** A run whose first frame holds one confident detection keeps it and records its centre. */
  lemma FirstFrameOfOne(a: Detection, confidenceThresh: real, moveThresh: real)
    requires PassesConfidence(a, confidenceThresh)
    ensures FilterTracks(map[], [[a]], confidenceThresh, moveThresh)
      == TrackState([[a]], map[a.tag := Center(a.bbox)])
  {
    assert FilterFrame(map[], [a], confidenceThresh, moveThresh) == FrameState([a], map[a.tag := Center(a.bbox)]) by {
      assert DropLast([a]) == [];
    }
    assert DropLast([[a]]) == [];
  }

  /** Two one-detection frames of the same label: the second is kept when it moved far enough. */
  lemma SecondFrameOfOne(a: Detection, b: Detection, confidenceThresh: real, moveThresh: real)
    requires PassesConfidence(a, confidenceThresh) && PassesConfidence(b, confidenceThresh)
    requires a.tag == b.tag
    requires !WithinDistance(Center(b.bbox), Center(a.bbox), moveThresh)
    ensures FilterTracks(map[], [[a], [b]], confidenceThresh, moveThresh).filtered == [[a], [b]]
  {
    var m := map[a.tag := Center(a.bbox)];
    FirstFrameOfOne(a, confidenceThresh, moveThresh);
    var f := FilterFrame(m, [b], confidenceThresh, moveThresh);
    assert f.kept == [b] by {
      assert DropLast([b]) == [];
      assert FilterFrame(m, [], confidenceThresh, moveThresh) == FrameState([], m);
      assert Accepts(m, b, confidenceThresh, moveThresh);
    }
    var tracks := [[a], [b]];
    assert DropLast(tracks) == [[a]] && Last(tracks) == [b];
    assert FilterTracks(map[], tracks, confidenceThresh, moveThresh).filtered == [[a]] + [f.kept];
  }
}
