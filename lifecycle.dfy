/**
 * The per-frame `Tracker.Update` of tracker.py as functions on values: one
 * function per step, in the order the method runs them, each reproducing the
 * code as written (including where it works on stale or shifted positions).
 * `UpdateSpec` chains them; the `Tracker` class is proved to compute it.
 *
 * Three things are parameters: the distance between a track and a detection
 * (`dist`, Euclidean in the source), the assignment solver (`solve`, SciPy's
 * `linear_sum_assignment`, of which only the column vector is used) and the
 * Kalman filter's correction (`kf`, given the track id and the measurement,
 * or `None` for a coasting update).
 */
module Lifecycle {
  import opened Seqs
  import opened Types

  // ---------------------------------------------------------------------------
  // Bootstrap and birth
  // ---------------------------------------------------------------------------

  /**
   * The tracks appended, in order, by a loop that creates one `Track` for each
   * detection index in `idxs` and increments the id counter after each one:
   * the bootstrap loop (with `idxs = range(M)`) and the birth loop (with
   * `idxs = un_assigned_detects`). The k-th new track carries the id
   * `count + k`.
   */
  function Spawn(dets: seq<Pos>, classes: seq<Label>, boxes: seq<BBox>, idxs: seq<nat>, count: int)
    : (r: seq<TrackState>)
    requires |classes| == |dets| && |boxes| == |dets|
    requires forall k :: 0 <= k < |idxs| ==> idxs[k] < |dets|
    ensures |r| == |idxs|
    ensures forall k :: 0 <= k < |idxs| ==>
      r[k] == NewTrack(dets[idxs[k]], count + k, classes[idxs[k]], boxes[idxs[k]], -1)
  {
    if idxs == [] then []
    else
      var last := idxs[|idxs| - 1];
      Spawn(dets, classes, boxes, idxs[..|idxs| - 1], count)
        + [NewTrack(dets[last], count + |idxs| - 1, classes[last], boxes[last], -1)]
  }

  /** The loop step: one more index appends one more track. */
  lemma SpawnStep(dets: seq<Pos>, classes: seq<Label>, boxes: seq<BBox>, idxs: seq<nat>, i: nat, count: int)
    requires |classes| == |dets| && |boxes| == |dets|
    requires forall k :: 0 <= k < |idxs| ==> idxs[k] < |dets|
    requires i < |idxs|
    ensures Spawn(dets, classes, boxes, idxs[..i + 1], count)
      == Spawn(dets, classes, boxes, idxs[..i], count)
         + [NewTrack(dets[idxs[i]], count + i, classes[idxs[i]], boxes[idxs[i]], -1)]
  {
    assert idxs[..i + 1][..i] == idxs[..i];
  }

  /**
   * New tracks start with the next ids, all distinct and at least the old
   * counter, with no skipped frame, an empty trace, and their detection's
   * box and class as the first history entries.
   */
  lemma SpawnFresh(dets: seq<Pos>, classes: seq<Label>, boxes: seq<BBox>, idxs: seq<nat>, count: int,
                   maxTraceLength: nat)
    requires |classes| == |dets| && |boxes| == |dets|
    requires forall k :: 0 <= k < |idxs| ==> idxs[k] < |dets|
    ensures var r := Spawn(dets, classes, boxes, idxs, count);
      && IdsUnique(r) && IdsBelow(r, count + |idxs|) && AllWellFormed(r, maxTraceLength)
      && forall k :: 0 <= k < |r| ==>
           && count <= r[k].trackId
           && r[k].prediction == dets[idxs[k]]
           && r[k].skippedFrames == 0 && r[k].trace == []
           && r[k].bboxTrace == [boxes[idxs[k]]] && r[k].predictedClass == [classes[idxs[k]]]
  {
  }

  // ---------------------------------------------------------------------------
  // Cost matrix and solver
  // ---------------------------------------------------------------------------

  /** The current position of every track (`self.tracks[i].prediction`). */
  function Positions(ts: seq<TrackState>): (ps: seq<Pos>)
    ensures |ps| == |ts|
    ensures forall i :: 0 <= i < |ts| ==> ps[i] == ts[i].prediction
  {
    seq(|ts|, i requires 0 <= i < |ts| => ts[i].prediction)
  }

  /** Number of columns of a matrix given as a list of rows. */
  function Width(c: seq<seq<real>>): nat {
    if c == [] then 0 else |c[0]|
  }

  predicate Rectangular(c: seq<seq<real>>) {
    forall i :: 0 <= i < |c| ==> |c[i]| == Width(c)
  }

  /**
   * The N x (M + N) matrix handed to the solver: the distance from each
   * track's position to each detection, followed by N "no match" columns
   * priced at the threshold.
   */
  function PaddedCost(preds: seq<Pos>, dets: seq<Pos>, dist: (Pos, Pos) -> real, thresh: real)
    : (c: seq<seq<real>>)
    ensures |c| == |preds| && Rectangular(c) && |c| <= Width(c)
    ensures preds != [] ==> Width(c) == |dets| + |preds|
  {
    seq(|preds|, i requires 0 <= i < |preds| =>
      seq(|dets| + |preds|, j requires 0 <= j < |dets| + |preds| =>
        if j < |dets| then dist(preds[i], dets[j]) else thresh))
  }

  /** `col` picks, for each of `n` rows, its own column below `w`. */
  predicate ColumnChoice(col: seq<int>, n: nat, w: nat) {
    && |col| == n
    && (forall i :: 0 <= i < n ==> 0 <= col[i] < w)
    && Distinct(col)
  }

  /**
   * What `linear_sum_assignment` returns for an N x W matrix with N <= W: one
   * column per row, no column twice. Optimality is not modelled.
   */
  ghost predicate SolverContract(solve: seq<seq<real>> -> seq<int>) {
    forall c :: Rectangular(c) && |c| <= Width(c) ==> ColumnChoice(solve(c), |c|, Width(c))
  }

  // ---------------------------------------------------------------------------
  // Classifying the solver's answer
  // ---------------------------------------------------------------------------

  /** The test `assignment[i] == -1 or assignment[i] >= M`. */
  predicate Unmatched(col: int, m: nat)
    ensures col >= -1 ==> (Unmatched(col, m) <==> !(0 <= col < m))
  {
    col == -1 || col >= m
  }

  /** The rows whose column fails the test, as flags: `Where` of them lists those rows. */
  function UnmatchedFlags(col: seq<int>, m: nat): (p: seq<bool>)
    ensures |p| == |col|
    ensures forall i :: i in Where(p) <==> 0 <= i < |col| && Unmatched(col[i], m)
  {
    var p := seq(|col|, i requires 0 <= i < |col| => Unmatched(col[i], m));
    WhereExact(p);
    p
  }

  /**
   * The `assignment` vector after classification: the solver's column where
   * it is a real detection, -1 where it is a "no match" column.
   */
  function AssignmentOf(col: seq<int>, m: nat): (a: seq<int>)
    requires forall i :: 0 <= i < |col| ==> 0 <= col[i]
    ensures |a| == |col|
    ensures forall i :: 0 <= i < |col| ==>
      && (a[i] == -1 || 0 <= a[i] < m)
      && (a[i] == -1 <==> col[i] >= m)
      && (a[i] != -1 ==> a[i] == col[i])
  {
    seq(|col|, i requires 0 <= i < |col| => if Unmatched(col[i], m) then -1 else col[i])
  }

  /** `self.tracks[i].skipped_frames += 1` for every unmatched track. */
  function BumpSkips(ts: seq<TrackState>, unmatched: seq<bool>): (r: seq<TrackState>)
    requires |unmatched| == |ts|
    ensures |r| == |ts|
    ensures forall i :: 0 <= i < |ts| ==>
      && r[i].skippedFrames == (if unmatched[i] then ts[i].skippedFrames + 1 else ts[i].skippedFrames)
      && r[i].trackId == ts[i].trackId && r[i].prediction == ts[i].prediction && r[i].trace == ts[i].trace
      && r[i].bboxTrace == ts[i].bboxTrace && r[i].predictedClass == ts[i].predictedClass
  {
    seq(|ts|, i requires 0 <= i < |ts| =>
      if unmatched[i] then ts[i].(skippedFrames := ts[i].skippedFrames + 1) else ts[i])
  }

  // ---------------------------------------------------------------------------
  // Deletion and unassigned detections
  // ---------------------------------------------------------------------------

  /** The test `self.tracks[i].skipped_frames > self.max_frames_to_skip`. */
  function DeletionFlags(ts: seq<TrackState>, maxFramesToSkip: int): (p: seq<bool>)
    ensures |p| == |ts|
    ensures forall i :: i in Where(p) <==> 0 <= i < |ts| && ts[i].skippedFrames > maxFramesToSkip
  {
    var p := seq(|ts|, i requires 0 <= i < |ts| => ts[i].skippedFrames > maxFramesToSkip);
    WhereExact(p);
    p
  }

  /** The test `i not in assignment` for every detection index `i < M`. */
  function DetectionFlags(a: seq<int>, m: nat): (p: seq<bool>)
    ensures |p| == m
    ensures forall j :: j in Where(p) <==> 0 <= j < m && j !in a
  {
    var p := seq(m, j requires 0 <= j < m => j !in a);
    WhereExact(p);
    p
  }

  // ---------------------------------------------------------------------------
  // History and position update
  // ---------------------------------------------------------------------------

  /**
   * The trace trimming loop `for j in range(len(trace) - max): del trace[j]`,
   * run when the trace is longer than `max`.
   */
  function Trim(trace: seq<Pos>, maxTraceLength: nat): (r: seq<Pos>)
    ensures |trace| <= maxTraceLength ==> r == trace
    ensures |r| <= |trace| && forall x :: x in r ==> x in trace
  {
    if |trace| > maxTraceLength then
      DeleteEachSubset(trace, Range(|trace| - maxTraceLength));
      DeleteEach(trace, Range(|trace| - maxTraceLength))
    else trace
  }

  /**
   * On a trace of at most `max + 1` points, trimming drops exactly the oldest
   * point when there are more than `max`, and nothing otherwise.
   */
  lemma TrimOldestFirst(trace: seq<Pos>, maxTraceLength: nat)
    requires |trace| <= maxTraceLength + 1
    ensures Trim(trace, maxTraceLength) == if |trace| > maxTraceLength then trace[1..] else trace
  {
    if |trace| > maxTraceLength {
      assert Range(1) == [0];
      assert Range(1)[1..] == [];
    }
  }

  /**
   * One pass of the per-track update loop for a track that is not skipped.
   * `matchedView` is the source's test `i not in un_assigned_tracks`, made on
   * the positions from before the deletions; `a` is `assignment[i]`, which
   * may be -1 even when `matchedView` holds, and then `predicted_classes[-1]`
   * and `bounding_boxes[-1]`, the last detection's, are appended.
   */
  function Advance(t: TrackState, matchedView: bool, a: int,
                   dets: seq<Pos>, classes: seq<Label>, boxes: seq<BBox>,
                   kf: (int, Option<Pos>) -> Pos, cfg: Config): (r: TrackState)
    requires |classes| == |dets| && |boxes| == |dets|
    requires a == -1 || 0 <= a < |dets|
    requires matchedView ==> |dets| > 0
    requires WellFormed(t, cfg.maxTraceLength)
    ensures WellFormed(r, cfg.maxTraceLength)
    ensures r.trackId == t.trackId
    // the skip counter restarts exactly on a real match
    ensures r.skippedFrames == if a != -1 then 0 else t.skippedFrames
    // without the filter, a matched track jumps to its detection, an unmatched one stays put
    ensures !cfg.useKf ==> r.prediction == if a != -1 then dets[a] else t.prediction
    // the trace loses its oldest point only when full, and ends at the new position
    ensures r.trace == (if |t.trace| > cfg.maxTraceLength then t.trace[1..] else t.trace) + [r.prediction]
    ensures r.trace[|r.trace| - 1] == r.prediction
    // the box trace grows by one and is never trimmed
    ensures r.bboxTrace == t.bboxTrace
      + [if !matchedView then t.bboxTrace[|t.bboxTrace| - 1]
         else if a == -1 then boxes[|boxes| - 1] else boxes[a]]
    ensures r.predictedClass == t.predictedClass
      + [if !matchedView then "" else if a == -1 then classes[|classes| - 1] else classes[a]]
  {
    TrimOldestFirst(t.trace, cfg.maxTraceLength);
    var cls := if matchedView then classes[PyIndex(|classes|, a)] else "";
    var box := if matchedView then boxes[PyIndex(|boxes|, a)] else t.bboxTrace[|t.bboxTrace| - 1];
    var skipped := if a != -1 then 0 else t.skippedFrames;
    var prediction :=
      if cfg.useKf then
        (if a != -1 then kf(t.trackId, Some(dets[a]))
         else if |t.trace| > 1 then kf(t.trackId, None)
         else t.prediction)
      else if a != -1 then dets[a] else t.prediction;
    t.(prediction := prediction,
       skippedFrames := skipped,
       trace := Trim(t.trace, cfg.maxTraceLength) + [prediction],
       bboxTrace := t.bboxTrace + [box],
       predictedClass := t.predictedClass + [cls])
  }

  /**
   * What the per-track loop needs of the list it runs over: an assignment
   * entry per track, -1 or a detection index; well-formed tracks; and, when
   * there are no detections, every position listed as unassigned (so that
   * `predicted_classes[assignment[i]]` is never evaluated on an empty list).
   */
  predicate AdvanceReady(ts: seq<TrackState>, a: seq<int>, unassigned: seq<nat>, m: nat, maxTraceLength: nat) {
    && |a| == |ts|
    && forall i :: 0 <= i < |ts| ==>
         && (a[i] == -1 || 0 <= a[i] < m)
         && WellFormed(ts[i], maxTraceLength)
         && (m == 0 ==> i in unassigned)
  }

  /**
   * The per-track loop: position `i` is left alone when `i in del_tracks`
   * (positions from before the deletions) and advanced otherwise.
   */
  function AdvanceAll(ts: seq<TrackState>, a: seq<int>, unassigned: seq<nat>, del: seq<nat>,
                      dets: seq<Pos>, classes: seq<Label>, boxes: seq<BBox>,
                      kf: (int, Option<Pos>) -> Pos, cfg: Config): (r: seq<TrackState>)
    requires |classes| == |dets| && |boxes| == |dets|
    requires AdvanceReady(ts, a, unassigned, |dets|, cfg.maxTraceLength)
    ensures |r| == |ts| && AllWellFormed(r, cfg.maxTraceLength)
    ensures forall i :: 0 <= i < |ts| ==> r[i].trackId == ts[i].trackId
  {
    seq(|ts|, i requires 0 <= i < |ts| =>
      if i in del then ts[i]
      else Advance(ts[i], i !in unassigned, a[i], dets, classes, boxes, kf, cfg))
  }

  // ---------------------------------------------------------------------------
  // The whole frame
  // ---------------------------------------------------------------------------

  /** The tracker's state after a step, with the lists the step built. */
  datatype Frame = Frame(
    tracks: seq<TrackState>,
    count: int,
    assignment: seq<int>,
    unassignedTracks: seq<nat>,
    delTracks: seq<nat>,
    unassignedDetects: seq<nat>)

  /** The solver's answer for a matrix it accepts. */
  ghost function SolveColumns(solve: seq<seq<real>> -> seq<int>, cost: seq<seq<real>>): (col: seq<int>)
    requires SolverContract(solve)
    requires Rectangular(cost) && |cost| <= Width(cost)
    ensures ColumnChoice(col, |cost|, Width(cost))
  {
    solve(cost)
  }

  /** The bootstrap step: with no tracks, one new track per detection. */
  function Bootstrapped(ts: seq<TrackState>, count: int, dets: seq<Pos>, classes: seq<Label>, boxes: seq<BBox>,
                        maxTraceLength: nat): (f: Frame)
    requires |classes| == |dets| && |boxes| == |dets|
    requires AllWellFormed(ts, maxTraceLength)
    ensures AllWellFormed(f.tracks, maxTraceLength)
    ensures |ts| == 0 ==> |f.tracks| == |dets| && f.count == count + |dets|
    ensures |ts| != 0 ==> f.tracks == ts && f.count == count
  {
    SpawnFresh(dets, classes, boxes, Range(|dets|), count, maxTraceLength);
    if |ts| == 0 then Frame(Spawn(dets, classes, boxes, Range(|dets|), count), count + |dets|, [], [], [], [])
    else Frame(ts, count, [], [], [], [])
  }

  /**
   * Bootstrap, cost matrix, solve and classification. After bootstrap the
   * method does not return: with no tracks, the new tracks go through the
   * matching of the same frame.
   */
  ghost function Classified(ts: seq<TrackState>, count: int,
                            dets: seq<Pos>, classes: seq<Label>, boxes: seq<BBox>,
                            dist: (Pos, Pos) -> real, solve: seq<seq<real>> -> seq<int>, cfg: Config)
    : (f: Frame)
    requires |classes| == |dets| && |boxes| == |dets|
    requires SolverContract(solve)
    requires AllWellFormed(ts, cfg.maxTraceLength)
    ensures FrameReady(f, |dets|, cfg.maxTraceLength)
  {
    var b := Bootstrapped(ts, count, dets, classes, boxes, cfg.maxTraceLength);
    var cost := PaddedCost(Positions(b.tracks), dets, dist, cfg.distThresh);
    ClassifiedFrame(b.tracks, b.count, SolveColumns(solve, cost), |dets|, cfg.maxTraceLength)
  }

  /**
   * What deletion, birth and the per-track loop need of a classified frame:
   * one entry per track, each -1 or a detection index, well-formed tracks,
   * and every track unassigned when there are no detections.
   */
  predicate FrameReady(f: Frame, m: nat, maxTraceLength: nat) {
    && |f.assignment| == |f.tracks| && AllWellFormed(f.tracks, maxTraceLength)
    && (forall i :: 0 <= i < |f.assignment| ==> f.assignment[i] == -1 || 0 <= f.assignment[i] < m)
    && (m == 0 ==> f.unassignedTracks == Range(|f.tracks|))
  }

  /** Classification of the solver's columns for the tracks `ts1`. */
  function ClassifiedFrame(ts1: seq<TrackState>, c1: int, col: seq<int>, m: nat, maxTraceLength: nat): (f: Frame)
    requires |col| == |ts1| && AllWellFormed(ts1, maxTraceLength)
    requires forall i :: 0 <= i < |col| ==> 0 <= col[i]
    ensures |f.assignment| == |f.tracks| && AllWellFormed(f.tracks, maxTraceLength)
    ensures forall i :: 0 <= i < |f.assignment| ==> f.assignment[i] == -1 || 0 <= f.assignment[i] < m
    ensures m == 0 ==> f.unassignedTracks == Range(|f.tracks|)
  {
    var flags := UnmatchedFlags(col, m);
    if m == 0 then WhereAll(flags); Frame(BumpSkips(ts1, flags), c1, AssignmentOf(col, m), Where(flags), [], [])
    else Frame(BumpSkips(ts1, flags), c1, AssignmentOf(col, m), Where(flags), [], [])
  }

  /**
   * Deletion of the tracks whose counter exceeds `max_frames_to_skip`, from
   * both `tracks` and `assignment`, at raw positions that shift as earlier
   * ones are deleted.
   */
  function Deleted(f: Frame, m: nat, cfg: Config): (g: Frame)
    requires |f.assignment| == |f.tracks| && AllWellFormed(f.tracks, cfg.maxTraceLength)
    requires forall i :: 0 <= i < |f.assignment| ==> f.assignment[i] == -1 || 0 <= f.assignment[i] < m
    ensures |g.assignment| == |g.tracks| <= |f.tracks| && AllWellFormed(g.tracks, cfg.maxTraceLength)
    ensures forall i :: 0 <= i < |g.assignment| ==> g.assignment[i] == -1 || 0 <= g.assignment[i] < m
    ensures g.count == f.count && g.unassignedTracks == f.unassignedTracks
  {
    var del := Where(DeletionFlags(f.tracks, cfg.maxFramesToSkip));
    var ts := DeleteEach(f.tracks, del);
    var a := DeleteEach(f.assignment, del);
    DeleteEachLockstep(f.tracks, f.assignment, del);
    DeleteEachSubset(f.tracks, del);
    DeleteEachSubset(f.assignment, del);
    assert forall i :: 0 <= i < |ts| ==> ts[i] in f.tracks;
    assert forall i :: 0 <= i < |a| ==> a[i] in f.assignment;
    f.(tracks := ts, assignment := a, delTracks := del)
  }

  /**
   * Birth: a new track for every detection index missing from `assignment`,
   * each with assignment entry -1.
   */
  function Born(f: Frame, dets: seq<Pos>, classes: seq<Label>, boxes: seq<BBox>, cfg: Config): (g: Frame)
    requires |classes| == |dets| && |boxes| == |dets|
    requires |f.assignment| == |f.tracks| && AllWellFormed(f.tracks, cfg.maxTraceLength)
    requires forall i :: 0 <= i < |f.assignment| ==> f.assignment[i] == -1 || 0 <= f.assignment[i] < |dets|
    ensures |g.assignment| == |g.tracks| && AllWellFormed(g.tracks, cfg.maxTraceLength)
    ensures forall i :: 0 <= i < |g.assignment| ==> g.assignment[i] == -1 || 0 <= g.assignment[i] < |dets|
    ensures |dets| == 0 ==> g.tracks == f.tracks
    ensures g.unassignedTracks == f.unassignedTracks && g.delTracks == f.delTracks
  {
    var u := Where(DetectionFlags(f.assignment, |dets|));
    SpawnFresh(dets, classes, boxes, u, f.count, cfg.maxTraceLength);
    f.(tracks := f.tracks + Spawn(dets, classes, boxes, u, f.count),
       count := f.count + |u|,
       assignment := f.assignment + seq(|u|, _ => -1),
       unassignedDetects := u)
  }

  /** Deletion, then birth. */
  function Pruned(f: Frame, dets: seq<Pos>, classes: seq<Label>, boxes: seq<BBox>, cfg: Config): (g: Frame)
    requires |classes| == |dets| && |boxes| == |dets|
    requires FrameReady(f, |dets|, cfg.maxTraceLength)
    ensures g.unassignedTracks == f.unassignedTracks
    ensures AdvanceReady(g.tracks, g.assignment, g.unassignedTracks, |dets|, cfg.maxTraceLength)
  {
    var d := Deleted(f, |dets|, cfg);
    var g := Born(d, dets, classes, boxes, cfg);
    if |dets| == 0 then
      RangeMembers(|f.tracks|);
      assert g.tracks == d.tracks && |d.tracks| <= |f.tracks|;
      assert g.unassignedTracks == Range(|f.tracks|);
      g
    else g
  }

  /** The per-track loop over the list left by deletion and birth. */
  function Advanced(f: Frame, dets: seq<Pos>, classes: seq<Label>, boxes: seq<BBox>,
                    kf: (int, Option<Pos>) -> Pos, cfg: Config): (g: Frame)
    requires |classes| == |dets| && |boxes| == |dets|
    requires AdvanceReady(f.tracks, f.assignment, f.unassignedTracks, |dets|, cfg.maxTraceLength)
    ensures |g.tracks| == |f.tracks| && AllWellFormed(g.tracks, cfg.maxTraceLength)
    ensures forall i :: 0 <= i < |f.tracks| ==> g.tracks[i].trackId == f.tracks[i].trackId
    ensures g.count == f.count && g.assignment == f.assignment
  {
    f.(tracks := AdvanceAll(f.tracks, f.assignment, f.unassignedTracks, f.delTracks,
                            dets, classes, boxes, kf, cfg))
  }

  /** `Tracker.Update`, as written. */
  ghost function UpdateSpec(ts: seq<TrackState>, count: int,
                            dets: seq<Pos>, classes: seq<Label>, boxes: seq<BBox>,
                            dist: (Pos, Pos) -> real, solve: seq<seq<real>> -> seq<int>,
                            kf: (int, Option<Pos>) -> Pos, cfg: Config): (f: Frame)
    requires |classes| == |dets| && |boxes| == |dets|
    requires SolverContract(solve)
    requires AllWellFormed(ts, cfg.maxTraceLength)
    ensures |f.assignment| == |f.tracks| && AllWellFormed(f.tracks, cfg.maxTraceLength)
    ensures forall i :: 0 <= i < |f.assignment| ==> f.assignment[i] == -1 || 0 <= f.assignment[i] < |dets|
  {
    Advanced(Pruned(Classified(ts, count, dets, classes, boxes, dist, solve, cfg),
                    dets, classes, boxes, cfg),
             dets, classes, boxes, kf, cfg)
  }
}
