/**
 * One tracked object in one frame, as the tracking service reports it: a bounding box in
 * normalized [0, 1] coordinates, a label (`tag`, since `label` is a Dafny keyword) and an optional confidence score.
 */
module Detections {
  import opened Wrappers
  import opened Geometry

  datatype Box = Box(xmin: real, ymin: real, xmax: real, ymax: real)

  datatype Detection = Detection(bbox: Box, tag: string, score: Option<real>)

  /** The score used by the filter; a detection without one counts as 0. */
  function Score(d: Detection): real
  {
    match d.score
    case Some(s) => s
    case None => 0.0
  }

  /** Centre of a bounding box in normalized coordinates. */
  function Center(b: Box): Point
  {
    Point((b.xmin + b.xmax) / 2.0, (b.ymin + b.ymax) / 2.0)
  }
}
