/**
 * Values handled by the tracker: detection centroids, bounding boxes, class
 * labels, the persisted record a track is restored from, the tracker's
 * configuration, and the state of one track as a value.
 */
module Types {

  datatype Option<T> = None | Some(value: T)

  /** A centroid `[x, y]` (the source keeps it as a 2x1 numpy column). */
  datatype Pos = Pos(x: real, y: real)

  /** A bounding box: four numbers, kept as given and never interpreted. */
  datatype BBox = BBox(x0: real, y0: real, x1: real, y1: real)

  /** A predicted class; the empty string marks "no detection this frame". */
  type Label = string

  /** The record `[id, x, y, class, bbox]` a track is restored from. */
  datatype PriorState = PriorState(id: int, x: real, y: real, cls: Label, bbox: BBox)

  /**
   * The settings a `Tracker` is built with and that no operation changes.
   * The Kalman tuning values (`dt`, `u_x`, `u_y`, `std_acc`, `x_std_meas`,
   * `y_std_meas`) only reach the filter, which is abstracted away.
   */
  datatype Config = Config(
    distThresh: real,
    maxFramesToSkip: int,
    maxTraceLength: nat,
    useKf: bool)

  /** The fields of one `Track` object, as a value. */
  datatype TrackState = TrackState(
    trackId: int,
    prediction: Pos,
    skippedFrames: nat,
    trace: seq<Pos>,
    bboxTrace: seq<BBox>,
    predictedClass: seq<Label>)

  /**
   * `Track.__init__`: the id is `knownId` unless that is -1, in which case it
   * is the tracker's current counter; the bounding box always starts the box
   * trace (the test `any(bbox) is not None` is always true) and the class
   * always starts the class list (the model always supplies one).
   */
  function NewTrack(prediction: Pos, trackIdCount: int, cls: Label, bbox: BBox, knownId: int): (t: TrackState)
    ensures knownId != -1 ==> t.trackId == knownId
    ensures knownId == -1 ==> t.trackId == trackIdCount
    ensures t.skippedFrames == 0 && |t.trace| == 0 && |t.bboxTrace| == 1 && |t.predictedClass| == 1
  {
    TrackState(
      if knownId != -1 then knownId else trackIdCount,
      prediction, 0, [], [bbox], [cls])
  }

  /**
   * What every live track satisfies between two calls: its box trace is not
   * empty (an unmatched track repeats `bbox_trace[-1]`) and its trace holds at
   * most `maxTraceLength + 1` points (the trace is trimmed before the append).
   */
  predicate WellFormed(t: TrackState, maxTraceLength: nat) {
    |t.bboxTrace| > 0 && |t.trace| <= maxTraceLength + 1
  }

  predicate AllWellFormed(ts: seq<TrackState>, maxTraceLength: nat) {
    forall i :: 0 <= i < |ts| ==> WellFormed(ts[i], maxTraceLength)
  }

  /** Every live id is below the counter, so the next generated id is new. */
  predicate IdsBelow(ts: seq<TrackState>, count: int) {
    forall i :: 0 <= i < |ts| ==> ts[i].trackId < count
  }

  predicate IdsUnique(ts: seq<TrackState>) {
    forall i, j :: 0 <= i < j < |ts| ==> ts[i].trackId != ts[j].trackId
  }
}
