/**
 * What one call of `Tracker.Update` guarantees, stated on the step functions
 * of `Lifecycle` (and so, through the `Tracker` class's contracts, on the
 * objects themselves): bootstrap, classification, deletion, birth, the id
 * counter, and the uniqueness and freshness of track ids across a frame.
 */
module Properties {
  import opened Seqs
  import opened Types
  import opened Lifecycle

  /**
   * Bootstrap: with no tracks, one track per detection, in detection order,
   * with the consecutive ids `count, count + 1, ...`; each starts at its
   * detection with no skipped frame, an empty trace and its detection's box
   * and class; the counter rises by the number of detections.
   */
  lemma BootstrapExact(ts: seq<TrackState>, count: int, dets: seq<Pos>, classes: seq<Label>, boxes: seq<BBox>,
                       maxTraceLength: nat)
    requires |classes| == |dets| && |boxes| == |dets|
    requires AllWellFormed(ts, maxTraceLength)
    requires ts == []
    ensures var f := Bootstrapped(ts, count, dets, classes, boxes, maxTraceLength);
      && |f.tracks| == |dets| && f.count == count + |dets|
      && IdsUnique(f.tracks) && IdsBelow(f.tracks, f.count)
      && forall k :: 0 <= k < |dets| ==>
           && f.tracks[k].trackId == count + k
           && f.tracks[k].prediction == dets[k]
           && f.tracks[k].skippedFrames == 0 && f.tracks[k].trace == []
           && f.tracks[k].bboxTrace == [boxes[k]] && f.tracks[k].predictedClass == [classes[k]]
  {
    SpawnFresh(dets, classes, boxes, Range(|dets|), count, maxTraceLength);
  }

  /**
   * Classification: a track is unassigned exactly when the solver gave it a
   * "no match" column (M or more); its assignment entry is then -1 and
   * otherwise its detection index, below M; an unassigned track's skip
   * counter grows by exactly one and nothing else about any track changes.
   */
  lemma ClassificationExact(ts: seq<TrackState>, count: int, col: seq<int>, m: nat, maxTraceLength: nat)
    requires ColumnChoice(col, |ts|, m + |ts|) && AllWellFormed(ts, maxTraceLength)
    ensures var f := ClassifiedFrame(ts, count, col, m, maxTraceLength);
      && |f.tracks| == |ts| && f.count == count
      && StrictlyIncreasing(f.unassignedTracks)
      && forall i :: 0 <= i < |ts| ==>
           && (i in f.unassignedTracks <==> col[i] >= m)
           && (f.assignment[i] == -1 <==> col[i] >= m)
           && (col[i] < m ==> f.assignment[i] == col[i])
           && f.tracks[i].skippedFrames == ts[i].skippedFrames + (if col[i] >= m then 1 else 0)
           && f.tracks[i].(skippedFrames := ts[i].skippedFrames) == ts[i]
  {
    WhereExact(UnmatchedFlags(col, m));
  }

  /**
   * Deletion selects exactly the tracks whose counter exceeds
   * `max_frames_to_skip`, in ascending order; with nothing selected nothing
   * changes, and with exactly one selected, exactly that track and its
   * assignment entry go, the others keeping their order.
   */
  lemma DeletionExact(f: Frame, m: nat, cfg: Config)
    requires |f.assignment| == |f.tracks| && AllWellFormed(f.tracks, cfg.maxTraceLength)
    requires forall i :: 0 <= i < |f.assignment| ==> f.assignment[i] == -1 || 0 <= f.assignment[i] < m
    ensures var g := Deleted(f, m, cfg);
      && StrictlyIncreasing(g.delTracks)
      && (forall k: nat :: k in g.delTracks <==> k < |f.tracks| && f.tracks[k].skippedFrames > cfg.maxFramesToSkip)
      && (g.delTracks == [] ==> g.tracks == f.tracks && g.assignment == f.assignment)
      && (|g.delTracks| == 1 ==>
            && g.tracks == RemoveAt(f.tracks, g.delTracks[0])
            && g.assignment == RemoveAt(f.assignment, g.delTracks[0]))
  {
    var del := Where(DeletionFlags(f.tracks, cfg.maxFramesToSkip));
    WhereExact(DeletionFlags(f.tracks, cfg.maxFramesToSkip));
    var g := Deleted(f, m, cfg);
    assert g.delTracks == del && g.tracks == DeleteEach(f.tracks, del) && g.assignment == DeleteEach(f.assignment, del);
    if |del| == 1 {
      assert del[1..] == [];
      assert DeleteEach(f.tracks, del) == DeleteEach(RemoveAt(f.tracks, del[0]), []);
      assert DeleteEach(f.assignment, del) == DeleteEach(RemoveAt(f.assignment, del[0]), []);
    }
  }

  /**
   * Birth: the new tracks are exactly one per detection index missing from
   * `assignment`, in ascending order, appended after the survivors with the
   * next ids; each gets assignment entry -1, so the two lists keep equal
   * length; the counter rises once per new track.
   */
  lemma BirthExact(f: Frame, dets: seq<Pos>, classes: seq<Label>, boxes: seq<BBox>, cfg: Config)
    requires |classes| == |dets| && |boxes| == |dets|
    requires |f.assignment| == |f.tracks| && AllWellFormed(f.tracks, cfg.maxTraceLength)
    requires forall i :: 0 <= i < |f.assignment| ==> f.assignment[i] == -1 || 0 <= f.assignment[i] < |dets|
    ensures var g := Born(f, dets, classes, boxes, cfg);
      var u := g.unassignedDetects;
      && StrictlyIncreasing(u)
      && (forall j :: j in u <==> 0 <= j < |dets| && j !in f.assignment)
      && |g.tracks| == |f.tracks| + |u| && g.tracks[..|f.tracks|] == f.tracks
      && |g.assignment| == |g.tracks| && g.assignment[..|f.tracks|] == f.assignment
      && g.count == f.count + |u|
      && forall k :: 0 <= k < |u| ==>
           && g.tracks[|f.tracks| + k] == NewTrack(dets[u[k]], f.count + k, classes[u[k]], boxes[u[k]], -1)
           && g.assignment[|f.tracks| + k] == -1
  {
    var u := Where(DetectionFlags(f.assignment, |dets|));
    WhereExact(DetectionFlags(f.assignment, |dets|));
    BirthAppends(f, dets, classes, boxes, cfg, u);
  }

  /** The lists and counter `Born` produces, given its `un_assigned_detects`. */
  lemma BirthAppends(f: Frame, dets: seq<Pos>, classes: seq<Label>, boxes: seq<BBox>, cfg: Config, u: seq<nat>)
    requires |classes| == |dets| && |boxes| == |dets|
    requires |f.assignment| == |f.tracks| && AllWellFormed(f.tracks, cfg.maxTraceLength)
    requires forall i :: 0 <= i < |f.assignment| ==> f.assignment[i] == -1 || 0 <= f.assignment[i] < |dets|
    requires u == Where(DetectionFlags(f.assignment, |dets|))
    ensures var g := Born(f, dets, classes, boxes, cfg);
      && g.unassignedDetects == u
      && |g.tracks| == |f.tracks| + |u| && g.tracks[..|f.tracks|] == f.tracks
      && |g.assignment| == |g.tracks| && g.assignment[..|f.tracks|] == f.assignment
      && g.count == f.count + |u|
      && forall k :: 0 <= k < |u| ==>
           && g.tracks[|f.tracks| + k] == NewTrack(dets[u[k]], f.count + k, classes[u[k]], boxes[u[k]], -1)
           && g.assignment[|f.tracks| + k] == -1
  {
    var born := Spawn(dets, classes, boxes, u, f.count);
    var g := Born(f, dets, classes, boxes, cfg);
    var pad: seq<int> := seq(|u|, _ => -1);
    assert g.tracks == f.tracks + born;
    assert g.assignment == f.assignment + pad;
    assert g.tracks[..|f.tracks|] == f.tracks;
    assert g.assignment[..|f.tracks|] == f.assignment;
    forall k | 0 <= k < |u|
      ensures g.tracks[|f.tracks| + k] == NewTrack(dets[u[k]], f.count + k, classes[u[k]], boxes[u[k]], -1)
      ensures g.assignment[|f.tracks| + k] == -1
    {
      assert g.tracks[|f.tracks| + k] == born[k];
      assert g.assignment[|f.tracks| + k] == pad[k];
    }
  }

  /** Removing a track keeps the ids unique and below the counter. */
  lemma {:induction false} DeleteEachKeepsIds(ts: seq<TrackState>, ks: seq<nat>, count: int)
    requires IdsUnique(ts) && IdsBelow(ts, count)
    ensures IdsUnique(DeleteEach(ts, ks)) && IdsBelow(DeleteEach(ts, ks), count)
    decreases |ks|
  {
    if ks != [] {
      var ts' := if ks[0] < |ts| then RemoveAt(ts, ks[0]) else ts;
      if ks[0] < |ts| {
        var k := ks[0];
        forall i, j | 0 <= i < j < |ts'| ensures ts'[i].trackId != ts'[j].trackId {
          var i' := if i < k then i else i + 1;
          var j' := if j < k then j else j + 1;
          assert ts'[i] == ts[i'] && ts'[j] == ts[j'] && i' < j';
        }
      }
      DeleteEachKeepsIds(ts', ks[1..], count);
    }
  }

  /**
   * Appending tracks whose ids are unique, at least the old counter and below
   * the new one keeps every id unique and below the new counter.
   */
  lemma AppendKeepsIds(ts: seq<TrackState>, count: int, born: seq<TrackState>, count': int)
    requires IdsUnique(ts) && IdsBelow(ts, count)
    requires IdsUnique(born) && IdsBelow(born, count') && count <= count'
    requires forall k :: 0 <= k < |born| ==> count <= born[k].trackId
    ensures IdsUnique(ts + born) && IdsBelow(ts + born, count')
  {
    var r := ts + born;
    forall i, j | 0 <= i < j < |r| ensures r[i].trackId != r[j].trackId {
      if j < |ts| {
      } else if i < |ts| {
        assert r[i].trackId < count <= r[j].trackId;
      } else {
        assert r[i] == born[i - |ts|] && r[j] == born[j - |ts|];
      }
    }
  }

  /**
   * The id invariant across a whole frame: if every live id is distinct and
   * below the counter before `Update`, it is so after, and the counter never
   * goes down. It rises by exactly the bootstrap's and the birth's new
   * tracks. So a generated id is never given to two live tracks.
   */
  lemma UpdateKeepsIdsFresh(ts: seq<TrackState>, count: int,
                            dets: seq<Pos>, classes: seq<Label>, boxes: seq<BBox>,
                            dist: (Pos, Pos) -> real, solve: seq<seq<real>> -> seq<int>,
                            kf: (int, Option<Pos>) -> Pos, cfg: Config)
    requires |classes| == |dets| && |boxes| == |dets|
    requires SolverContract(solve)
    requires AllWellFormed(ts, cfg.maxTraceLength)
    requires IdsUnique(ts) && IdsBelow(ts, count)
    ensures var f := UpdateSpec(ts, count, dets, classes, boxes, dist, solve, kf, cfg);
      && IdsUnique(f.tracks) && IdsBelow(f.tracks, f.count)
      && f.count == count + (if ts == [] then |dets| else 0) + |f.unassignedDetects|
  {
    var f1 := Classified(ts, count, dets, classes, boxes, dist, solve, cfg);
    ClassifiedKeepsIds(ts, count, dets, classes, boxes, dist, solve, cfg);
    var g := Pruned(f1, dets, classes, boxes, cfg);
    PrunedKeepsIds(f1, dets, classes, boxes, cfg);
    AdvancedKeepsIds(g, dets, classes, boxes, kf, cfg);
  }

  /** The per-track loop changes no id and not the counter. */
  lemma AdvancedKeepsIds(g: Frame, dets: seq<Pos>, classes: seq<Label>, boxes: seq<BBox>,
                         kf: (int, Option<Pos>) -> Pos, cfg: Config)
    requires |classes| == |dets| && |boxes| == |dets|
    requires AdvanceReady(g.tracks, g.assignment, g.unassignedTracks, |dets|, cfg.maxTraceLength)
    requires IdsUnique(g.tracks) && IdsBelow(g.tracks, g.count)
    ensures var f := Advanced(g, dets, classes, boxes, kf, cfg);
      IdsUnique(f.tracks) && IdsBelow(f.tracks, f.count) && f.count == g.count
        && f.unassignedDetects == g.unassignedDetects
  {
    var f := Advanced(g, dets, classes, boxes, kf, cfg);
    assert |f.tracks| == |g.tracks| && forall i :: 0 <= i < |g.tracks| ==> f.tracks[i].trackId == g.tracks[i].trackId;
  }

  /** Bootstrap and classification keep the ids unique and below the counter. */
  lemma ClassifiedKeepsIds(ts: seq<TrackState>, count: int,
                           dets: seq<Pos>, classes: seq<Label>, boxes: seq<BBox>,
                           dist: (Pos, Pos) -> real, solve: seq<seq<real>> -> seq<int>, cfg: Config)
    requires |classes| == |dets| && |boxes| == |dets|
    requires SolverContract(solve)
    requires AllWellFormed(ts, cfg.maxTraceLength)
    requires IdsUnique(ts) && IdsBelow(ts, count)
    ensures var f := Classified(ts, count, dets, classes, boxes, dist, solve, cfg);
      && IdsUnique(f.tracks) && IdsBelow(f.tracks, f.count)
      && f.count == count + (if ts == [] then |dets| else 0)
  {
    var b := Bootstrapped(ts, count, dets, classes, boxes, cfg.maxTraceLength);
    BootstrapKeepsIds(ts, count, dets, classes, boxes, cfg.maxTraceLength);
    var col := SolveColumns(solve, PaddedCost(Positions(b.tracks), dets, dist, cfg.distThresh));
    ClassifiedFrameKeepsIds(b.tracks, b.count, col, |dets|, cfg.maxTraceLength);
  }

  /** Bootstrap keeps the ids unique and below the counter. */
  lemma BootstrapKeepsIds(ts: seq<TrackState>, count: int, dets: seq<Pos>, classes: seq<Label>, boxes: seq<BBox>,
                          maxTraceLength: nat)
    requires |classes| == |dets| && |boxes| == |dets|
    requires AllWellFormed(ts, maxTraceLength)
    requires IdsUnique(ts) && IdsBelow(ts, count)
    ensures var b := Bootstrapped(ts, count, dets, classes, boxes, maxTraceLength);
      && IdsUnique(b.tracks) && IdsBelow(b.tracks, b.count)
      && b.count == count + (if ts == [] then |dets| else 0)
  {
    if ts == [] {
      BootstrapExact(ts, count, dets, classes, boxes, maxTraceLength);
    }
  }

  /** Classification changes skip counters only, so it keeps every id. */
  lemma ClassifiedFrameKeepsIds(ts1: seq<TrackState>, c1: int, col: seq<int>, m: nat, maxTraceLength: nat)
    requires |col| == |ts1| && AllWellFormed(ts1, maxTraceLength)
    requires forall i :: 0 <= i < |col| ==> 0 <= col[i]
    requires IdsUnique(ts1) && IdsBelow(ts1, c1)
    ensures var f := ClassifiedFrame(ts1, c1, col, m, maxTraceLength);
      IdsUnique(f.tracks) && IdsBelow(f.tracks, f.count) && f.count == c1
  {
    var f := ClassifiedFrame(ts1, c1, col, m, maxTraceLength);
    assert f.tracks == BumpSkips(ts1, UnmatchedFlags(col, m));
    assert forall i :: 0 <= i < |f.tracks| ==> f.tracks[i].trackId == ts1[i].trackId;
  }

  /** Deletion and birth keep the ids unique and below the counter. */
  lemma PrunedKeepsIds(f1: Frame, dets: seq<Pos>, classes: seq<Label>, boxes: seq<BBox>, cfg: Config)
    requires |classes| == |dets| && |boxes| == |dets|
    requires FrameReady(f1, |dets|, cfg.maxTraceLength)
    requires IdsUnique(f1.tracks) && IdsBelow(f1.tracks, f1.count)
    ensures var g := Pruned(f1, dets, classes, boxes, cfg);
      && IdsUnique(g.tracks) && IdsBelow(g.tracks, g.count)
      && g.count == f1.count + |g.unassignedDetects|
  {
    var d := Deleted(f1, |dets|, cfg);
    DeleteEachKeepsIds(f1.tracks, d.delTracks, f1.count);
    var g := Born(d, dets, classes, boxes, cfg);
    var born := Spawn(dets, classes, boxes, g.unassignedDetects, d.count);
    SpawnFresh(dets, classes, boxes, g.unassignedDetects, d.count, cfg.maxTraceLength);
    AppendKeepsIds(d.tracks, d.count, born, g.count);
    assert g == Pruned(f1, dets, classes, boxes, cfg);
  }

  /**
   * The per-track loop: a position in `del_tracks` is left as it was; any
   * other track restarts its skip counter exactly on a real match, and
   * (without the filter) moves to its detection, or stays put when
   * unmatched; its trace ends at its position and stays within
   * `max_trace_length + 1` points; its id does not change.
   */
  lemma AdvanceAllEffect(ts: seq<TrackState>, a: seq<int>, unassigned: seq<nat>, del: seq<nat>,
                         dets: seq<Pos>, classes: seq<Label>, boxes: seq<BBox>,
                         kf: (int, Option<Pos>) -> Pos, cfg: Config)
    requires |classes| == |dets| && |boxes| == |dets|
    requires AdvanceReady(ts, a, unassigned, |dets|, cfg.maxTraceLength)
    ensures var r := AdvanceAll(ts, a, unassigned, del, dets, classes, boxes, kf, cfg);
      forall i :: 0 <= i < |ts| ==>
        && r[i].trackId == ts[i].trackId
        && |r[i].trace| <= cfg.maxTraceLength + 1
        && (i in del ==> r[i] == ts[i])
        && (i !in del ==>
              && r[i].skippedFrames == (if a[i] != -1 then 0 else ts[i].skippedFrames)
              && (!cfg.useKf ==> r[i].prediction == if a[i] != -1 then dets[a[i]] else ts[i].prediction)
              && |r[i].trace| > 0 && r[i].trace[|r[i].trace| - 1] == r[i].prediction)
  {
    var r := AdvanceAll(ts, a, unassigned, del, dets, classes, boxes, kf, cfg);
    forall i | 0 <= i < |ts| && i !in del
      ensures r[i] == Advance(ts[i], i !in unassigned, a[i], dets, classes, boxes, kf, cfg)
    {
    }
  }
}
