/**
 * The `Track` and `Tracker` classes of tracker.py. A `Tracker` owns a list of
 * `Track` objects and updates their fields in place; `View()` is that list as
 * values, and every method states its effect on `View()` and on the id
 * counter in terms of the functions of module `Lifecycle`.
 */
module TrackerImpl {
  import opened Seqs
  import opened Types
  import opened Lifecycle
  import opened RestoredIds

  class Track {
    var trackId: int
    var prediction: Pos
    var skippedFrames: nat
    var trace: seq<Pos>
    var bboxTrace: seq<BBox>
    var predictedClass: seq<Label>

    ghost function State(): TrackState
      reads this
    {
      TrackState(trackId, prediction, skippedFrames, trace, bboxTrace, predictedClass)
    }

    /**
     * `Track.__init__`: a restored track keeps its known id, any other takes
     * the tracker's counter; nothing skipped yet, empty trace, and the box and
     * class of its detection as first history entries.
     */
    constructor (prediction: Pos, trackIdCount: int, predictedClass: Label, bbox: BBox, knownId: int)
      ensures trackId == if knownId != -1 then knownId else trackIdCount
      ensures this.prediction == prediction && skippedFrames == 0 && trace == []
      ensures bboxTrace == [bbox] && this.predictedClass == [predictedClass]
      ensures State() == NewTrack(prediction, trackIdCount, predictedClass, bbox, knownId)
    {
      if knownId != -1 {
        trackId := knownId;
      } else {
        trackId := trackIdCount;
      }
      this.prediction := prediction;
      skippedFrames := 0;
      trace := [];
      bboxTrace := [bbox];
      this.predictedClass := [predictedClass];
    }
  }

  /** `[i for i in range(M) if i not in assignment]`, built by a loop. */
  method UnassignedDetections(assignment: seq<int>, m: nat) returns (u: seq<nat>)
    ensures u == Where(DetectionFlags(assignment, m))
    ensures forall j :: j in u <==> 0 <= j < m && j !in assignment
    ensures StrictlyIncreasing(u)
  {
    ghost var flags := DetectionFlags(assignment, m);
    u := [];
    var i := 0;
    while i < m
      invariant 0 <= i <= m
      invariant u == Where(flags[..i])
    {
      WhereStep(flags, i);
      if i !in assignment {
        u := u + [i];
      }
      i := i + 1;
    }
    assert flags[..m] == flags;
    WhereExact(flags);
  }

  class Tracker {
    const distThresh: real
    const maxFramesToSkip: int
    const maxTraceLength: nat
    const useKf: bool
    var tracks: seq<Track>
    var trackIdCount: int

    ghost function Cfg(): Config {
      Config(distThresh, maxFramesToSkip, maxTraceLength, useKf)
    }

    /** The live tracks as values, in list order. */
    ghost function View(): (v: seq<TrackState>)
      reads this, tracks
      ensures |v| == |tracks|
    {
      var ts := tracks;
      seq(|ts|, i requires 0 <= i < |ts| reads ts => ts[i].State())
    }

    /** No `Track` object is listed twice, and every track is well formed. */
    ghost predicate Valid()
      reads this, tracks
    {
      Distinct(tracks) && AllWellFormed(View(), maxTraceLength)
    }

    /** `Tracker.__init__`: the settings, no tracks, and the starting counter. */
    constructor (distThresh: real, maxFramesToSkip: int, maxTraceLength: nat, trackIdCount: int, useKf: bool)
      ensures Valid() && tracks == [] && View() == []
      ensures this.trackIdCount == trackIdCount
      ensures Cfg() == Config(distThresh, maxFramesToSkip, maxTraceLength, useKf)
    {
      this.distThresh := distThresh;
      this.maxFramesToSkip := maxFramesToSkip;
      this.maxTraceLength := maxTraceLength;
      this.useKf := useKf;
      tracks := [];
      this.trackIdCount := trackIdCount;
    }

    /**
     * The step shared by restore, bootstrap and birth: a new `Track` built
     * with the current counter, the counter incremented, the track appended.
     */
    method AddTrack(prediction: Pos, cls: Label, bbox: BBox, knownId: int)
      requires Valid()
      modifies this`tracks, this`trackIdCount
      ensures Valid()
      ensures View() == old(View()) + [NewTrack(prediction, old(trackIdCount), cls, bbox, knownId)]
      ensures trackIdCount == old(trackIdCount) + 1
      ensures |tracks| == |old(tracks)| + 1 && tracks[..|old(tracks)|] == old(tracks)
      ensures fresh(tracks[|tracks| - 1])
    {
      var t := new Track(prediction, trackIdCount, cls, bbox, knownId);
      trackIdCount := trackIdCount + 1;
      tracks := tracks + [t];
      assert View() == old(View()) + [t.State()];
    }

    /**
     * `initialise_from_prior_state`: append a track restored from
     * `[id, x, y, class, bbox]`, keeping its id (unless it is -1), and count
     * it in the id counter.
     */
    method InitialiseFromPriorState(prior: PriorState)
      requires Valid()
      modifies this
      ensures Valid()
      ensures View() == old(View()) + [NewTrack(Pos(prior.x, prior.y), old(trackIdCount), prior.cls, prior.bbox, prior.id)]
      ensures prior.id != -1 ==> View()[|View()| - 1].trackId == prior.id
      ensures trackIdCount == old(trackIdCount) + 1
      ensures Roster(View(), trackIdCount) == Restore(Roster(old(View()), old(trackIdCount)), prior)
      ensures fresh(set t | t in tracks && t !in old(tracks))
    {
      AddTrack(Pos(prior.x, prior.y), prior.cls, prior.bbox, prior.id);
    }

    /** `set_trackIdCount`: the next generated id is `latest + 1`. */
    method SetTrackIdCount(latest: int)
      requires Valid()
      modifies this`trackIdCount
      ensures tracks == old(tracks) && View() == old(View())
      ensures Valid()
      ensures trackIdCount == latest + 1
    {
      trackIdCount := latest + 1;
    }

    /** `clear_tracks`: no tracks left; the counter and the settings stay. */
    method ClearTracks()
      modifies this`tracks
      ensures Valid() && tracks == [] && View() == []
      ensures trackIdCount == old(trackIdCount)
    {
      tracks := [];
    }

    /**
     * The bootstrap loop and the birth loop: a new track per index in `idxs`,
     * each taking the counter as id before the counter is incremented.
     */
    method StartTracks(dets: seq<Pos>, classes: seq<Label>, boxes: seq<BBox>, idxs: seq<nat>)
      requires Valid()
      requires |classes| == |dets| && |boxes| == |dets|
      requires forall k :: 0 <= k < |idxs| ==> idxs[k] < |dets|
      modifies this`tracks, this`trackIdCount
      ensures Valid()
      ensures View() == old(View()) + Spawn(dets, classes, boxes, idxs, old(trackIdCount))
      ensures trackIdCount == old(trackIdCount) + |idxs|
      ensures |tracks| == |old(tracks)| + |idxs| && tracks[..|old(tracks)|] == old(tracks)
      ensures forall k :: |old(tracks)| <= k < |tracks| ==> fresh(tracks[k])
    {
      var i := 0;
      while i < |idxs|
        invariant 0 <= i <= |idxs|
        invariant trackIdCount == old(trackIdCount) + i
        invariant |tracks| == |old(tracks)| + i && tracks[..|old(tracks)|] == old(tracks)
        invariant forall k :: |old(tracks)| <= k < |tracks| ==> fresh(tracks[k])
        invariant Valid()
        invariant View() == old(View()) + Spawn(dets, classes, boxes, idxs[..i], old(trackIdCount))
      {
        SpawnStep(dets, classes, boxes, idxs, i, old(trackIdCount));
        ghost var born := Spawn(dets, classes, boxes, idxs[..i], old(trackIdCount));
        ghost var t := NewTrack(dets[idxs[i]], old(trackIdCount) + i, classes[idxs[i]], boxes[idxs[i]], -1);
        AddTrack(dets[idxs[i]], classes[idxs[i]], boxes[idxs[i]], -1);
        assert View() == old(View()) + born + [t];
        assert old(View()) + born + [t] == old(View()) + (born + [t]);
        i := i + 1;
      }
      assert idxs[..|idxs|] == idxs;
    }

    /**
     * The cost matrix handed to the solver: N rows, M + N columns, the
     * distance to each detection and then N "no match" columns priced at
     * `dist_thresh`.
     */
    method CostMatrix(dets: seq<Pos>, dist: (Pos, Pos) -> real) returns (cost: seq<seq<real>>)
      ensures cost == PaddedCost(Positions(View()), dets, dist, distThresh)
      ensures |cost| == |tracks|
      ensures forall i :: 0 <= i < |tracks| ==> |cost[i]| == |dets| + |tracks|
      ensures forall i, j :: 0 <= i < |tracks| && 0 <= j < |dets| ==> cost[i][j] == dist(tracks[i].prediction, dets[j])
      ensures forall i, j :: 0 <= i < |tracks| && |dets| <= j < |dets| + |tracks| ==> cost[i][j] == distThresh
    {
      var n, m := |tracks|, |dets|;
      var dists := [];
      var i := 0;
      while i < n
        invariant 0 <= i <= n && |dists| == i
        invariant forall r :: 0 <= r < i ==> |dists[r]| == m
        invariant forall r, j :: 0 <= r < i && 0 <= j < m ==> dists[r][j] == dist(tracks[r].prediction, dets[j])
      {
        var row := [];
        var j := 0;
        while j < m
          invariant 0 <= j <= m && |row| == j
          invariant forall c :: 0 <= c < j ==> row[c] == dist(tracks[i].prediction, dets[c])
        {
          row := row + [dist(tracks[i].prediction, dets[j])];
          j := j + 1;
        }
        dists := dists + [row];
        i := i + 1;
      }
      // np.c_[cost, np.ones((N, N)) * dist_thresh]
      cost := [];
      i := 0;
      while i < n
        invariant 0 <= i <= n && |cost| == i
        invariant forall r :: 0 <= r < i ==> cost[r] == dists[r] + seq(n, _ => distThresh)
      {
        cost := cost + [dists[i] + seq(n, _ => distThresh)];
        i := i + 1;
      }
      ghost var spec := PaddedCost(Positions(View()), dets, dist, distThresh);
      forall r | 0 <= r < n
        ensures cost[r] == spec[r]
      {
        assert |cost[r]| == |spec[r]|;
        assert forall j :: 0 <= j < m + n ==> cost[r][j] == spec[r][j];
      }
    }

    /** `self.tracks[i].skipped_frames += 1`. */
    method SkipFrame(i: nat)
      requires Valid() && i < |tracks|
      modifies tracks[i]
      ensures Valid()
      ensures View() == old(View())[i := old(View())[i].(skippedFrames := old(View())[i].skippedFrames + 1)]
    {
      ghost var v := View();
      tracks[i].skippedFrames := tracks[i].skippedFrames + 1;
      assert View() == v[i := v[i].(skippedFrames := v[i].skippedFrames + 1)];
    }

    /**
     * The assignment vector and its classification: the solver's column per
     * track; a column of M or more is "no match", becomes -1, puts the track
     * in `un_assigned_tracks` and adds one to its skip counter.
     */
    method Classify(col: seq<int>, m: nat) returns (assignment: seq<int>, unassigned: seq<nat>)
      requires Valid()
      requires |col| == |tracks|
      requires forall i :: 0 <= i < |col| ==> 0 <= col[i]
      modifies tracks
      ensures Valid()
      ensures assignment == AssignmentOf(col, m)
      ensures unassigned == Where(UnmatchedFlags(col, m))
      ensures View() == BumpSkips(old(View()), UnmatchedFlags(col, m))
    {
      var n := |tracks|;
      ghost var v0 := View();
      ghost var flags := UnmatchedFlags(col, m);
      assignment := CopyColumns(col);
      assert assignment == ClassifiedUpTo(col, m, 0);
      unassigned := [];
      var i := 0;
      while i < n
        invariant 0 <= i <= n
        invariant Valid() && |tracks| == n
        invariant assignment == ClassifiedUpTo(col, m, i)
        invariant unassigned == Where(flags[..i])
        invariant View() == BumpedUpTo(v0, flags, i)
      {
        assignment, unassigned := ClassifyRow(v0, col, m, i, assignment, unassigned);
        i := i + 1;
      }
      assert flags[..n] == flags;
    }

    /** One step of the classification loop: row `i` is kept or marked unmatched. */
    method ClassifyRow(ghost v0: seq<TrackState>, col: seq<int>, m: nat, i: nat,
                       assignment: seq<int>, unassigned: seq<nat>)
      returns (assignment': seq<int>, unassigned': seq<nat>)
      requires Valid() && |tracks| == |col| == |v0| && i < |col|
      requires forall k :: 0 <= k < |col| ==> 0 <= col[k]
      requires assignment == ClassifiedUpTo(col, m, i)
      requires unassigned == Where(UnmatchedFlags(col, m)[..i])
      requires View() == BumpedUpTo(v0, UnmatchedFlags(col, m), i)
      modifies tracks[i]
      ensures Valid() && |tracks| == |col|
      ensures assignment' == ClassifiedUpTo(col, m, i + 1)
      ensures unassigned' == Where(UnmatchedFlags(col, m)[..i + 1])
      ensures View() == BumpedUpTo(v0, UnmatchedFlags(col, m), i + 1)
    {
      ghost var flags := UnmatchedFlags(col, m);
      assert flags[i] == Unmatched(col[i], m);
      WhereStep(flags, i);
      BumpedStep(v0, flags, i);
      ClassifiedStep(col, m, i);
      assignment', unassigned' := assignment, unassigned;
      if assignment[i] == -1 || assignment[i] >= m {
        assignment' := assignment[i := -1];
        unassigned' := unassigned + [i];
        SkipFrame(i);
      }
    }

    /**
     * The assignment list before classification: `N` entries of -1, then
     * entry `i` overwritten by the solver's column for row `i`.
     */
    static method CopyColumns(col: seq<int>) returns (assignment: seq<int>)
      ensures assignment == col
    {
      assignment := seq(|col|, _ => -1);
      for i := 0 to |col|
        invariant |assignment| == |col|
        invariant forall k :: 0 <= k < |col| ==> assignment[k] == if k < i then col[k] else -1
      {
        assignment := assignment[i := col[i]];
      }
    }

    /** The skip counters after the first `i` steps of the classification loop. */
    static ghost function BumpedUpTo(v0: seq<TrackState>, flags: seq<bool>, i: nat): (r: seq<TrackState>)
      requires |flags| == |v0| && i <= |v0|
      ensures |r| == |v0|
      ensures i == |v0| ==> r == BumpSkips(v0, flags)
    {
      seq(|v0|, k requires 0 <= k < |v0| =>
        if k < i && flags[k] then v0[k].(skippedFrames := v0[k].skippedFrames + 1) else v0[k])
    }

    static lemma BumpedStep(v0: seq<TrackState>, flags: seq<bool>, i: nat)
      requires |flags| == |v0| && i < |v0|
      ensures BumpedUpTo(v0, flags, i + 1) ==
        if flags[i] then BumpedUpTo(v0, flags, i)[i := v0[i].(skippedFrames := v0[i].skippedFrames + 1)]
        else BumpedUpTo(v0, flags, i)
    {
    }

    /** The assignment vector after the first `i` steps of the classification loop. */
    static function ClassifiedUpTo(col: seq<int>, m: nat, i: nat): (r: seq<int>)
      requires i <= |col| && forall k :: 0 <= k < |col| ==> 0 <= col[k]
      ensures |r| == |col|
      ensures i == |col| ==> r == AssignmentOf(col, m)
    {
      seq(|col|, k requires 0 <= k < |col| => if k < i && Unmatched(col[k], m) then -1 else col[k])
    }

    static lemma ClassifiedStep(col: seq<int>, m: nat, i: nat)
      requires i < |col| && forall k :: 0 <= k < |col| ==> 0 <= col[k]
      ensures ClassifiedUpTo(col, m, i + 1) ==
        if Unmatched(col[i], m) then ClassifiedUpTo(col, m, i)[i := -1] else ClassifiedUpTo(col, m, i)
      ensures ClassifiedUpTo(col, m, i)[i] == col[i]
    {
    }

    /** `del_tracks`: the positions of the tracks whose counter exceeds the limit. */
    method SelectDeletions() returns (del: seq<nat>)
      ensures del == Where(DeletionFlags(View(), maxFramesToSkip))
      ensures forall k :: k in del <==> 0 <= k < |tracks| && tracks[k].skippedFrames > maxFramesToSkip
      ensures StrictlyIncreasing(del)
    {
      ghost var flags := DeletionFlags(View(), maxFramesToSkip);
      del := [];
      var i := 0;
      while i < |tracks|
        invariant 0 <= i <= |tracks|
        invariant del == Where(flags[..i])
      {
        WhereStep(flags, i);
        assert flags[i] == (tracks[i].skippedFrames > maxFramesToSkip);
        if tracks[i].skippedFrames > maxFramesToSkip {
          del := del + [i];
        }
        i := i + 1;
      }
      assert flags[..|tracks|] == flags;
      WhereExact(flags);
    }

    /**
     * `for id in del_tracks: if id < len(self.tracks): del self.tracks[id];
     * del assignment[id]`, at positions that shift after each deletion.
     */
    method DeleteTracks(del: seq<nat>, assignment: seq<int>) returns (a: seq<int>)
      requires Valid()
      requires |assignment| == |tracks|
      modifies this`tracks
      ensures Valid()
      ensures tracks == DeleteEach(old(tracks), del)
      ensures View() == DeleteEach(old(View()), del)
      ensures a == DeleteEach(assignment, del)
      ensures |a| == |tracks|
    {
      a := assignment;
      var j := 0;
      while j < |del|
        invariant 0 <= j <= |del|
        invariant |a| == |tracks|
        invariant Valid()
        invariant DeleteEach(tracks, del[j..]) == DeleteEach(old(tracks), del)
        invariant DeleteEach(View(), del[j..]) == DeleteEach(old(View()), del)
        invariant DeleteEach(a, del[j..]) == DeleteEach(assignment, del)
      {
        var id := del[j];
        assert del[j..][1..] == del[j + 1..];
        if id < |tracks| {
          RemoveTrack(id);
          a := RemoveAt(a, id);
        }
        j := j + 1;
      }
    }

    /** `del self.tracks[id]`. */
    method RemoveTrack(id: nat)
      requires Valid() && id < |tracks|
      modifies this`tracks
      ensures Valid()
      ensures tracks == RemoveAt(old(tracks), id)
      ensures View() == RemoveAt(old(View()), id)
    {
      ghost var v := View();
      DeleteEachDistinct(tracks, [id]);
      tracks := RemoveAt(tracks, id);
      assert View() == RemoveAt(v, id);
    }

    /**
     * `for j in range(len(trace) - max_trace_length): del trace[j]`, run when
     * the trace is longer than `max_trace_length`; on a trace of at most one
     * point too many, that drops exactly the oldest point.
     */
    method TrimTrace(trace: seq<Pos>) returns (r: seq<Pos>)
      requires |trace| <= maxTraceLength + 1
      ensures r == Trim(trace, maxTraceLength)
      ensures r == if |trace| > maxTraceLength then trace[1..] else trace
    {
      r := trace;
      if |r| > maxTraceLength {
        var excess := |r| - maxTraceLength;
        var j := 0;
        while j < excess
          invariant 0 <= j <= excess
          invariant |r| == |trace| - j
          invariant DeleteEach(r, Range(excess)[j..]) == DeleteEach(trace, Range(excess))
        {
          assert Range(excess)[j..][1..] == Range(excess)[j + 1..];
          r := RemoveAt(r, j);
          j := j + 1;
        }
      }
      TrimOldestFirst(trace, maxTraceLength);
    }

    /**
     * One pass of the per-track loop for the track `t`: class and box
     * histories, skip reset and new position on a match, trace trimming and
     * the append of the current position.
     */
    method AdvanceTrack(t: Track, matchedView: bool, a: int,
                        dets: seq<Pos>, classes: seq<Label>, boxes: seq<BBox>,
                        kf: (int, Option<Pos>) -> Pos)
      requires |classes| == |dets| && |boxes| == |dets|
      requires a == -1 || 0 <= a < |dets|
      requires matchedView ==> |dets| > 0
      requires WellFormed(t.State(), maxTraceLength)
      modifies t
      ensures t.State() == Advance(old(t.State()), matchedView, a, dets, classes, boxes, kf, Cfg())
    {
      // class history: the matched label, or "" for an unmatched track
      var cls := if matchedView then classes[PyIndex(|classes|, a)] else "";
      // box history: the matched box, or the previous frame's box again
      var box := if matchedView then boxes[PyIndex(|boxes|, a)] else t.bboxTrace[|t.bboxTrace| - 1];
      var skipped, prediction := t.skippedFrames, t.prediction;
      if useKf {
        if a != -1 {
          skipped, prediction := 0, kf(t.trackId, Some(dets[a]));
        } else if |t.trace| > 1 {
          prediction := kf(t.trackId, None);
        }
      } else if a != -1 {
        skipped, prediction := 0, dets[a];
      }
      var trace := TrimTrace(t.trace);
      t.predictedClass, t.bboxTrace := t.predictedClass + [cls], t.bboxTrace + [box];
      t.skippedFrames, t.prediction := skipped, prediction;
      t.trace := trace + [prediction];
    }

    /**
     * The per-track loop: every position not listed in `del_tracks` is
     * advanced, with `i not in un_assigned_tracks` as its match test.
     */
    method AdvanceTracks(assignment: seq<int>, unassigned: seq<nat>, del: seq<nat>,
                         dets: seq<Pos>, classes: seq<Label>, boxes: seq<BBox>,
                         kf: (int, Option<Pos>) -> Pos)
      requires Valid()
      requires |classes| == |dets| && |boxes| == |dets|
      requires AdvanceReady(View(), assignment, unassigned, |dets|, maxTraceLength)
      modifies tracks
      ensures Valid()
      ensures View() == AdvanceAll(old(View()), assignment, unassigned, del, dets, classes, boxes, kf, Cfg())
    {
      ghost var v0 := View();
      ghost var v1 := AdvanceAll(v0, assignment, unassigned, del, dets, classes, boxes, kf, Cfg());
      for i := 0 to |tracks|
        invariant forall k :: 0 <= k < |tracks| ==> tracks[k].State() == if k < i then v1[k] else v0[k]
      {
        AdvanceAt(v0, i, assignment, unassigned, del, dets, classes, boxes, kf);
      }
      assert View() == v1;
    }

    /**
     * One step of the per-track loop: the track at position `i` is skipped
     * when `i` is in `del_tracks` and advanced in place otherwise.
     */
    method AdvanceAt(ghost v0: seq<TrackState>, i: nat, assignment: seq<int>, unassigned: seq<nat>, del: seq<nat>,
                     dets: seq<Pos>, classes: seq<Label>, boxes: seq<BBox>,
                     kf: (int, Option<Pos>) -> Pos)
      requires Distinct(tracks) && |tracks| == |v0| && i < |tracks|
      requires |classes| == |dets| && |boxes| == |dets|
      requires AdvanceReady(v0, assignment, unassigned, |dets|, maxTraceLength)
      requires forall k :: 0 <= k < |tracks| ==>
        tracks[k].State() == if k < i then AdvanceAll(v0, assignment, unassigned, del, dets, classes, boxes, kf, Cfg())[k] else v0[k]
      modifies tracks[i]
      ensures forall k :: 0 <= k < |tracks| ==>
        tracks[k].State() == if k <= i then AdvanceAll(v0, assignment, unassigned, del, dets, classes, boxes, kf, Cfg())[k] else v0[k]
    {
      ghost var v1 := AdvanceAll(v0, assignment, unassigned, del, dets, classes, boxes, kf, Cfg());
      if i in del {
        return;
      }
      AdvanceTrack(tracks[i], i !in unassigned, assignment[i], dets, classes, boxes, kf);
      assert tracks[i].State() == v1[i];
    }

    /**
     * `Tracker.Update`: bootstrap (without returning), cost matrix, solve,
     * classification, deletion, birth and the per-track update, exactly as
     * `UpdateSpec` chains them.
     */
    method Update(dets: seq<Pos>, classes: seq<Label>, boxes: seq<BBox>,
                  dist: (Pos, Pos) -> real, solve: seq<seq<real>> -> seq<int>,
                  kf: (int, Option<Pos>) -> Pos)
      requires Valid()
      requires |classes| == |dets| && |boxes| == |dets|
      requires SolverContract(solve)
      modifies this, tracks
      ensures Valid()
      ensures var f := UpdateSpec(old(View()), old(trackIdCount), dets, classes, boxes, dist, solve, kf, Cfg());
        View() == f.tracks && trackIdCount == f.count
      ensures fresh(set t | t in tracks && t !in old(tracks))
    {
      ghost var f1 := Classified(View(), trackIdCount, dets, classes, boxes, dist, solve, Cfg());
      var assignment, unassigned := Match(dets, classes, boxes, dist, solve);
      ghost var born2 := Finish(f1, assignment, unassigned, dets, classes, boxes, kf);
    }

    /** The second half of `Update`: deletion, birth and the per-track loop. */
    method Finish(ghost f1: Frame, assignment: seq<int>, unassigned: seq<nat>,
                  dets: seq<Pos>, classes: seq<Label>, boxes: seq<BBox>,
                  kf: (int, Option<Pos>) -> Pos)
      returns (ghost born: set<Track>)
      requires Valid()
      requires |classes| == |dets| && |boxes| == |dets|
      requires FrameReady(f1, |dets|, maxTraceLength)
      requires View() == f1.tracks && trackIdCount == f1.count
      requires assignment == f1.assignment && unassigned == f1.unassignedTracks
      modifies this`tracks, this`trackIdCount, tracks
      ensures Valid()
      ensures var f := Advanced(Pruned(f1, dets, classes, boxes, Cfg()), dets, classes, boxes, kf, Cfg());
        View() == f.tracks && trackIdCount == f.count
      ensures fresh(born) && forall t :: t in tracks ==> t in old(tracks) || t in born
    {
      ghost var f2 := Pruned(f1, dets, classes, boxes, Cfg());
      var a, del := Prune(f1, assignment, unassigned, dets, classes, boxes);
      born := set t | t in tracks && t !in old(tracks);
      assert unassigned == f2.unassignedTracks;
      AdvanceTracks(a, unassigned, del, dets, classes, boxes, kf);
    }

    /**
     * The first half of `Update`: bootstrap when there are no tracks (and go
     * on), the padded cost matrix, the solver, and the classification of its
     * columns.
     */
    method Match(dets: seq<Pos>, classes: seq<Label>, boxes: seq<BBox>,
                 dist: (Pos, Pos) -> real, solve: seq<seq<real>> -> seq<int>)
      returns (assignment: seq<int>, unassigned: seq<nat>)
      requires Valid()
      requires |classes| == |dets| && |boxes| == |dets|
      requires SolverContract(solve)
      modifies this`tracks, this`trackIdCount, tracks
      ensures Valid()
      ensures var f := Classified(old(View()), old(trackIdCount), dets, classes, boxes, dist, solve, Cfg());
        View() == f.tracks && trackIdCount == f.count && assignment == f.assignment && unassigned == f.unassignedTracks
      ensures fresh(set t | t in tracks && t !in old(tracks))
    {
      ghost var f0 := Bootstrapped(View(), trackIdCount, dets, classes, boxes, maxTraceLength);
      Bootstrap(dets, classes, boxes);
      assignment, unassigned := ClassifyAll(f0, dets, dist, solve);
    }

    /** The bootstrap step: with no tracks, one new track per detection. */
    method Bootstrap(dets: seq<Pos>, classes: seq<Label>, boxes: seq<BBox>)
      requires Valid()
      requires |classes| == |dets| && |boxes| == |dets|
      modifies this`tracks, this`trackIdCount
      ensures Valid()
      ensures var f := Bootstrapped(old(View()), old(trackIdCount), dets, classes, boxes, maxTraceLength);
        View() == f.tracks && trackIdCount == f.count
      ensures fresh(set t | t in tracks && t !in old(tracks))
    {
      if |tracks| == 0 {
        StartTracks(dets, classes, boxes, Range(|dets|));
      }
    }

    /** Cost matrix, solver and classification for the tracks of `f0`. */
    method ClassifyAll(ghost f0: Frame, dets: seq<Pos>,
                       dist: (Pos, Pos) -> real, solve: seq<seq<real>> -> seq<int>)
      returns (assignment: seq<int>, unassigned: seq<nat>)
      requires Valid() && View() == f0.tracks && trackIdCount == f0.count
      requires SolverContract(solve)
      modifies tracks
      ensures Valid()
      ensures var f := ClassifiedFrame(f0.tracks, f0.count,
                         SolveColumns(solve, PaddedCost(Positions(f0.tracks), dets, dist, distThresh)),
                         |dets|, maxTraceLength);
        View() == f.tracks && trackIdCount == f.count && assignment == f.assignment && unassigned == f.unassignedTracks
    {
      var cost := CostMatrix(dets, dist);
      var col := solve(cost);
      assert col == SolveColumns(solve, cost);
      ghost var f := ClassifiedFrame(f0.tracks, f0.count, col, |dets|, maxTraceLength);
      assignment, unassigned := Classify(col, |dets|);
      assert View() == f.tracks && assignment == f.assignment && unassigned == f.unassignedTracks;
    }

    /**
     * The middle of `Update`: the tracks past `max_frames_to_skip` are deleted
     * (from `tracks` and `assignment` alike), then a track is born for every
     * detection left out of `assignment`.
     */
    method Prune(ghost f1: Frame, assignment: seq<int>, unassigned: seq<nat>,
                 dets: seq<Pos>, classes: seq<Label>, boxes: seq<BBox>)
      returns (a: seq<int>, del: seq<nat>)
      requires Valid()
      requires |classes| == |dets| && |boxes| == |dets|
      requires FrameReady(f1, |dets|, maxTraceLength)
      requires View() == f1.tracks && trackIdCount == f1.count
      requires assignment == f1.assignment && unassigned == f1.unassignedTracks
      modifies this`tracks, this`trackIdCount
      ensures Valid()
      ensures var f := Pruned(f1, dets, classes, boxes, Cfg());
        View() == f.tracks && trackIdCount == f.count && a == f.assignment && del == f.delTracks
      ensures fresh(set t | t in tracks && t !in old(tracks))
    {
      ghost var d := Deleted(f1, |dets|, Cfg());
      del := SelectDeletions();
      a := DeleteTracks(del, assignment);
      DeleteEachSubset(old(tracks), del);
      a := Birth(d, a, dets, classes, boxes);
    }

    /**
     * Birth: `un_assigned_detects`, then a new track and an assignment entry
     * -1 for each of them.
     */
    method Birth(ghost d: Frame, assignment: seq<int>, dets: seq<Pos>, classes: seq<Label>, boxes: seq<BBox>)
      returns (a: seq<int>)
      requires Valid()
      requires |classes| == |dets| && |boxes| == |dets|
      requires |d.assignment| == |d.tracks| && AllWellFormed(d.tracks, maxTraceLength)
      requires forall i :: 0 <= i < |d.assignment| ==> d.assignment[i] == -1 || 0 <= d.assignment[i] < |dets|
      requires View() == d.tracks && trackIdCount == d.count && assignment == d.assignment
      modifies this`tracks, this`trackIdCount
      ensures Valid()
      ensures var g := Born(d, dets, classes, boxes, Cfg());
        View() == g.tracks && trackIdCount == g.count && a == g.assignment
      ensures fresh(set t | t in tracks && t !in old(tracks))
    {
      var u := UnassignedDetections(assignment, |dets|);
      StartTracks(dets, classes, boxes, u);
      a := assignment + seq(|u|, _ => -1);
    }
  }
}
