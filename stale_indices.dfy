/**
 * Three places where `Tracker.Update` works on positions that earlier steps
 * of the same call have made stale. For each, a concrete input on which the
 * code as written (the `Lifecycle` functions) does something the code
 * evidently does not intend, and a corrected step with the intended property
 * proved about it; `UpdateFixed` chains the corrected steps.
 *
 * 1. Deleting several tracks: `del self.tracks[id]` for each `id` of an
 *    ascending list shifts the later positions, so a later `id` removes the
 *    wrong track, or none.
 * 2. The per-track loop skips `i in del_tracks`, positions from before the
 *    deletions, so after a deletion it skips a surviving track instead.
 * 3. The match test of that loop, `i not in un_assigned_tracks`, also uses
 *    the positions from before deletion and birth: a track born this frame is
 *    "matched", and with `assignment[i] == -1` it records
 *    `predicted_classes[-1]` and `bounding_boxes[-1]`, the last detection's.
 */
module StaleIndices {
  import opened Seqs
  import opened Types
  import opened Lifecycle
  import opened Properties

  // ---------------------------------------------------------------------------
  // 1. Deleting several tracks
  // ---------------------------------------------------------------------------

  /** A track with the given id, position and skip counter, fresh otherwise. */
  function Sample(id: int, p: Pos, skipped: nat): TrackState {
    TrackState(id, p, skipped, [p], [BBox(0.0, 0.0, 1.0, 1.0)], ["ant"])
  }

  /**
   * As written: with `max_frames_to_skip == 0` and the first two of three
   * tracks over the limit, the loop deletes position 0 and then position 1 of
   * the shortened list: the second over-limit track survives and the track
   * within the limit is deleted.
   */
  lemma MultiDeletionWitness()
    ensures var p := Pos(0.0, 0.0);
      var f := Frame([Sample(0, p, 1), Sample(1, p, 1), Sample(2, p, 0)], 3, [-1, -1, 0], [0, 1], [], []);
      var cfg := Config(1.0, 0, 10, false);
      var g := Deleted(f, 1, cfg);
      && g.tracks == [Sample(1, p, 1)]
      && g.tracks[0].skippedFrames > cfg.maxFramesToSkip
      && DeletedFixed(f, 1, cfg).tracks == [Sample(2, p, 0)]
  {
    var p := Pos(0.0, 0.0);
    var ts := [Sample(0, p, 1), Sample(1, p, 1), Sample(2, p, 0)];
    MultiDeletionLists(ts);
  }

  /** The deletion loop and the intended filter on the three tracks of `MultiDeletionWitness`. */
  lemma MultiDeletionLists(ts: seq<TrackState>)
    requires var p := Pos(0.0, 0.0); ts == [Sample(0, p, 1), Sample(1, p, 1), Sample(2, p, 0)]
    ensures var p := Pos(0.0, 0.0);
      var flags := DeletionFlags(ts, 0);
      && Where(flags) == [0, 1]
      && DeleteEach(ts, [0, 1]) == [Sample(1, p, 1)]
      && KeepUnselected(ts, flags) == [Sample(2, p, 0)]
  {
    var flags := DeletionFlags(ts, 0);
    assert flags == [true, true, false];
    MultiDeletionFlags();
    MultiDeletionLoop(ts);
    MultiDeletionKeep(ts);
  }

  /** The selected positions of that input: the first two. */
  lemma MultiDeletionFlags()
    ensures Where([true, true, false]) == [0, 1]
  {
    var flags := [true, true, false];
    assert flags[..2] == [true, true] && flags[..2][..1] == [true] && flags[..2][..1][..0] == [];
    assert Where([true]) == [0] by {
      assert [true][..0] == [];
    }
    assert Where([true, true]) == Where([true]) + [1];
  }

  /** The shifting loop deletes position 0, then position 1 of the shortened list. */
  lemma MultiDeletionLoop(ts: seq<TrackState>)
    requires var p := Pos(0.0, 0.0); ts == [Sample(0, p, 1), Sample(1, p, 1), Sample(2, p, 0)]
    ensures DeleteEach(ts, [0, 1]) == [Sample(1, Pos(0.0, 0.0), 1)]
  {
    var p := Pos(0.0, 0.0);
    assert RemoveAt(ts, 0) == [Sample(1, p, 1), Sample(2, p, 0)];
    assert [0, 1][1..] == [1] && [1][1..] == [];
    assert RemoveAt([Sample(1, p, 1), Sample(2, p, 0)], 1) == [Sample(1, p, 1)];
  }

  /** The intended filter keeps only the track within the limit. */
  lemma MultiDeletionKeep(ts: seq<TrackState>)
    requires var p := Pos(0.0, 0.0); ts == [Sample(0, p, 1), Sample(1, p, 1), Sample(2, p, 0)]
    ensures KeepUnselected(ts, [true, true, false]) == [Sample(2, Pos(0.0, 0.0), 0)]
  {
    var flags := [true, true, false];
    assert ts[..2][..1][..0] == [] && flags[..2][..1][..0] == [];
    assert KeepUnselected(ts[..2][..1], flags[..2][..1]) == [];
    assert KeepUnselected(ts[..2], flags[..2]) == [];
  }

  /** The elements of `s` whose flag is false, in order. */
  function KeepUnselected<T>(s: seq<T>, p: seq<bool>): (r: seq<T>)
    requires |p| == |s|
    ensures |r| <= |s|
  {
    if s == [] then []
    else KeepUnselected(s[..|s| - 1], p[..|p| - 1]) + (if p[|p| - 1] then [] else [s[|s| - 1]])
  }

  function Negate(p: seq<bool>): (q: seq<bool>)
    ensures |q| == |p| && forall i :: 0 <= i < |p| ==> q[i] == !p[i]
  {
    seq(|p|, i requires 0 <= i < |p| => !p[i])
  }

  /**
   * `KeepUnselected` keeps exactly the unflagged elements: its k-th element
   * is the one at the k-th unflagged position.
   */
  lemma {:induction false} KeepUnselectedExact<T>(s: seq<T>, p: seq<bool>)
    requires |p| == |s|
    ensures var r := KeepUnselected(s, p);
      var keep := Where(Negate(p));
      |r| == |keep| && forall k :: 0 <= k < |r| ==> r[k] == s[keep[k]]
  {
    if s != [] {
      var s', p' := s[..|s| - 1], p[..|p| - 1];
      KeepUnselectedExact(s', p');
      var q := Negate(p);
      assert q[..|q| - 1] == Negate(p');
      var r, r' := KeepUnselected(s, p), KeepUnselected(s', p');
      var keep, keep' := Where(q), Where(Negate(p'));
      if p[|p| - 1] {
        assert r == r' && keep == keep';
      } else {
        assert r == r' + [s[|s| - 1]] && keep == keep' + [|s| - 1];
        forall k | 0 <= k < |r'| ensures r[k] == s[keep[k]] {
          assert r[k] == r'[k] == s'[keep'[k]];
        }
      }
    }
  }

  /**
   * When at most one track is selected, the code as written deletes exactly
   * what is intended.
   */
  lemma SingleDeletionAgrees<T>(s: seq<T>, p: seq<bool>)
    requires |p| == |s| && |Where(p)| <= 1
    ensures DeleteEach(s, Where(p)) == KeepUnselected(s, p)
  {
    var del := Where(p);
    WhereExact(p);
    var r := KeepUnselected(s, p);
    KeepUnselectedExact(s, p);
    var keep := Where(Negate(p));
    WhereExact(Negate(p));
    if del == [] {
      assert forall i :: 0 <= i < |s| ==> !p[i];
      KeepAllWhenNoneFlagged(s, p);
    } else {
      var k := del[0];
      assert [k][1..] == [];
      assert DeleteEach(s, del) == RemoveAt(s, k);
      assert forall i :: 0 <= i < |s| ==> (p[i] <==> i == k);
      KeepAllButOne(s, p, k);
    }
  }

  lemma {:induction false} KeepAllWhenNoneFlagged<T>(s: seq<T>, p: seq<bool>)
    requires |p| == |s| && forall i :: 0 <= i < |s| ==> !p[i]
    ensures KeepUnselected(s, p) == s
  {
    if s != [] {
      KeepAllWhenNoneFlagged(s[..|s| - 1], p[..|p| - 1]);
    }
  }

  lemma {:induction false} KeepAllButOne<T>(s: seq<T>, p: seq<bool>, k: nat)
    requires |p| == |s| && k < |s| && forall i :: 0 <= i < |s| ==> (p[i] <==> i == k)
    ensures KeepUnselected(s, p) == RemoveAt(s, k)
  {
    var s', p' := s[..|s| - 1], p[..|p| - 1];
    if k == |s| - 1 {
      KeepAllWhenNoneFlagged(s', p');
    } else {
      KeepAllButOne(s', p', k);
      assert RemoveAt(s, k) == RemoveAt(s', k) + [s[|s| - 1]];
    }
  }

  /**
   * The intended deletion: every track over the limit goes, with its
   * assignment entry; every other track stays, in order.
   */
  function DeletedFixed(f: Frame, m: nat, cfg: Config): (g: Frame)
    requires |f.assignment| == |f.tracks| && AllWellFormed(f.tracks, cfg.maxTraceLength)
    requires forall i :: 0 <= i < |f.assignment| ==> f.assignment[i] == -1 || 0 <= f.assignment[i] < m
    ensures |g.assignment| == |g.tracks| <= |f.tracks| && AllWellFormed(g.tracks, cfg.maxTraceLength)
    ensures forall i :: 0 <= i < |g.assignment| ==> g.assignment[i] == -1 || 0 <= g.assignment[i] < m
    ensures forall i :: 0 <= i < |g.tracks| ==> g.tracks[i].skippedFrames <= cfg.maxFramesToSkip
    ensures g.count == f.count && g.unassignedTracks == f.unassignedTracks
  {
    var flags := DeletionFlags(f.tracks, cfg.maxFramesToSkip);
    KeptWithinLimit(f, m, cfg);
    f.(tracks := KeepUnselected(f.tracks, flags),
       assignment := KeepUnselected(f.assignment, flags),
       delTracks := Where(flags))
  }

  /** The lists `DeletedFixed` keeps: lockstep, in range, well formed and within the limit. */
  lemma KeptWithinLimit(f: Frame, m: nat, cfg: Config)
    requires |f.assignment| == |f.tracks| && AllWellFormed(f.tracks, cfg.maxTraceLength)
    requires forall i :: 0 <= i < |f.assignment| ==> f.assignment[i] == -1 || 0 <= f.assignment[i] < m
    ensures var flags := DeletionFlags(f.tracks, cfg.maxFramesToSkip);
      var ts, a := KeepUnselected(f.tracks, flags), KeepUnselected(f.assignment, flags);
      && |a| == |ts| <= |f.tracks| && AllWellFormed(ts, cfg.maxTraceLength)
      && (forall i :: 0 <= i < |a| ==> a[i] == -1 || 0 <= a[i] < m)
      && (forall i :: 0 <= i < |ts| ==> ts[i].skippedFrames <= cfg.maxFramesToSkip)
  {
    var flags := DeletionFlags(f.tracks, cfg.maxFramesToSkip);
    var ts, a := KeepUnselected(f.tracks, flags), KeepUnselected(f.assignment, flags);
    var keep := Where(Negate(flags));
    KeepUnselectedExact(f.tracks, flags);
    KeepUnselectedExact(f.assignment, flags);
    forall k | 0 <= k < |ts|
      ensures WellFormed(ts[k], cfg.maxTraceLength) && ts[k].skippedFrames <= cfg.maxFramesToSkip
      ensures a[k] == -1 || 0 <= a[k] < m
    {
      assert keep[k] < |f.tracks| && Negate(flags)[keep[k]];
      assert ts[k] == f.tracks[keep[k]] && a[k] == f.assignment[keep[k]];
    }
  }

  /**
   * The corrected deletion keeps exactly the tracks within the limit, in
   * order, and agrees with the code as written when at most one track is over
   * it.
   */
  lemma DeletedFixedExact(f: Frame, m: nat, cfg: Config)
    requires |f.assignment| == |f.tracks| && AllWellFormed(f.tracks, cfg.maxTraceLength)
    requires forall i :: 0 <= i < |f.assignment| ==> f.assignment[i] == -1 || 0 <= f.assignment[i] < m
    ensures var g := DeletedFixed(f, m, cfg);
      var keep := Where(Negate(DeletionFlags(f.tracks, cfg.maxFramesToSkip)));
      && (forall i :: i in keep <==> 0 <= i < |f.tracks| && f.tracks[i].skippedFrames <= cfg.maxFramesToSkip)
      && |g.tracks| == |keep|
      && (forall k :: 0 <= k < |keep| ==> g.tracks[k] == f.tracks[keep[k]] && g.assignment[k] == f.assignment[keep[k]])
      && (|g.delTracks| <= 1 ==> g.tracks == Deleted(f, m, cfg).tracks && g.assignment == Deleted(f, m, cfg).assignment)
  {
    var flags := DeletionFlags(f.tracks, cfg.maxFramesToSkip);
    assert forall i :: 0 <= i < |flags| ==> flags[i] == (f.tracks[i].skippedFrames > cfg.maxFramesToSkip);
    KeepUnselectedExact(f.tracks, flags);
    KeepUnselectedExact(f.assignment, flags);
    WhereExact(Negate(flags));
    if |Where(flags)| <= 1 {
      SingleDeletionAgrees(f.tracks, flags);
      SingleDeletionAgrees(f.assignment, flags);
    }
  }

  // ---------------------------------------------------------------------------
  // 2 and 3. The per-track loop
  // ---------------------------------------------------------------------------

  /**
   * As written: of two tracks, the first over the limit and the second
   * matched to the only detection, the first is deleted; the survivor now
   * sits at position 0, which is in `del_tracks`, so the loop skips it: its
   * trace, histories and skip counter are left as they were.
   */
  lemma SkippedSurvivorWitness()
    ensures var p, q := Pos(0.0, 0.0), Pos(5.0, 5.0);
      var f1 := Frame([Sample(0, p, 2), Sample(1, q, 0)], 2, [-1, 0], [0], [], []);
      var dets, classes, boxes := [q], ["bee"], [BBox(4.0, 4.0, 6.0, 6.0)];
      var cfg := Config(1.0, 1, 10, false);
      var kf := (id: int, z: Option<Pos>) => p;
      var g := Pruned(f1, dets, classes, boxes, cfg);
      && g.tracks == [Sample(1, q, 0)] && g.delTracks == [0]
      && Advanced(g, dets, classes, boxes, kf, cfg).tracks == [Sample(1, q, 0)]
      && AdvanceEvery(g.tracks, g.assignment, dets, classes, boxes, kf, cfg)[0].trace == [q, q]
  {
    var p, q := Pos(0.0, 0.0), Pos(5.0, 5.0);
    SurvivorPruned();
    SurvivorAdvanced();
  }

  /** The per-track loops on the frame `SurvivorPruned` computes. */
  lemma SurvivorAdvanced()
    ensures var p, q := Pos(0.0, 0.0), Pos(5.0, 5.0);
      var g := Frame([Sample(1, q, 0)], 2, [0], [0], [0], []);
      var dets, classes, boxes := [q], ["bee"], [BBox(4.0, 4.0, 6.0, 6.0)];
      var cfg := Config(1.0, 1, 10, false);
      var kf := (id: int, z: Option<Pos>) => p;
      && Advanced(g, dets, classes, boxes, kf, cfg).tracks == [Sample(1, q, 0)]
      && AdvanceEvery(g.tracks, g.assignment, dets, classes, boxes, kf, cfg)[0].trace == [q, q]
  {
    var q := Pos(5.0, 5.0);
    TrimOldestFirst([q], 10);
  }

  /** Deletion and birth on the input of `SkippedSurvivorWitness`. */
  lemma SurvivorPruned()
    ensures var p, q := Pos(0.0, 0.0), Pos(5.0, 5.0);
      var f1 := Frame([Sample(0, p, 2), Sample(1, q, 0)], 2, [-1, 0], [0], [], []);
      var g := Pruned(f1, [q], ["bee"], [BBox(4.0, 4.0, 6.0, 6.0)], Config(1.0, 1, 10, false));
      g == Frame([Sample(1, q, 0)], 2, [0], [0], [0], [])
  {
    var p, q := Pos(0.0, 0.0), Pos(5.0, 5.0);
    var cfg := Config(1.0, 1, 10, false);
    var f1 := Frame([Sample(0, p, 2), Sample(1, q, 0)], 2, [-1, 0], [0], [], []);
    var d := Frame([Sample(1, q, 0)], 2, [0], [0], [0], []);
    SurvivorDeleted();
    SurvivorBorn();
    assert Pruned(f1, [q], ["bee"], [BBox(4.0, 4.0, 6.0, 6.0)], cfg)
      == Born(d, [q], ["bee"], [BBox(4.0, 4.0, 6.0, 6.0)], cfg);
  }

  /** The deletion step alone: the track over the limit goes. */
  lemma SurvivorDeleted()
    ensures var p, q := Pos(0.0, 0.0), Pos(5.0, 5.0);
      var f1 := Frame([Sample(0, p, 2), Sample(1, q, 0)], 2, [-1, 0], [0], [], []);
      Deleted(f1, 1, Config(1.0, 1, 10, false)) == Frame([Sample(1, q, 0)], 2, [0], [0], [0], [])
  {
    var p, q := Pos(0.0, 0.0), Pos(5.0, 5.0);
    var f1 := Frame([Sample(0, p, 2), Sample(1, q, 0)], 2, [-1, 0], [0], [], []);
    var flags := DeletionFlags(f1.tracks, 1);
    assert flags == [true, false];
    assert Where(flags) == [0] by {
      assert flags[..1] == [true] && flags[..1][..0] == [];
      assert Where([true]) == [0];
    }
    assert [0][1..] == [];
  }

  /** The birth step alone: the only detection is matched, so no track is born. */
  lemma SurvivorBorn()
    ensures var p, q := Pos(0.0, 0.0), Pos(5.0, 5.0);
      var d := Frame([Sample(1, q, 0)], 2, [0], [0], [0], []);
      Born(d, [q], ["bee"], [BBox(4.0, 4.0, 6.0, 6.0)], Config(1.0, 1, 10, false)) == d
  {
    var dflags := DetectionFlags([0], 1);
    assert dflags == [false];
    assert Where(dflags) == [] by {
      assert dflags[..0] == [];
    }
  }

  /**
   * As written: a track born from detection 0 while detection 1 matched an
   * existing track sits at position 1, which is not in `un_assigned_tracks`
   * (a list of positions below N), so the loop treats it as matched: with
   * its assignment entry -1 its class and box histories get
   * `predicted_classes[-1]` and `bounding_boxes[-1]`, detection 1's. The
   * intended loop records the empty label instead.
   */
  lemma NewbornLabelWitness()
    ensures var d0, d1 := Pos(0.0, 0.0), Pos(5.0, 5.0);
      var b0, b1 := BBox(0.0, 0.0, 1.0, 1.0), BBox(4.0, 4.0, 6.0, 6.0);
      var dets, classes, boxes := [d0, d1], ["ant", "bee"], [b0, b1];
      var cfg := Config(1.0, 1, 10, false);
      var kf := (id: int, z: Option<Pos>) => d0;
      var f1 := Frame([Sample(0, d1, 0)], 1, [1], [], [], []);
      var g := Pruned(f1, dets, classes, boxes, cfg);
      && g == Frame([Sample(0, d1, 0), NewTrack(d0, 1, "ant", b0, -1)], 2, [1, -1], [], [], [0])
      && Advanced(g, dets, classes, boxes, kf, cfg).tracks[1].predictedClass == ["ant", "bee"]
      && Advanced(g, dets, classes, boxes, kf, cfg).tracks[1].bboxTrace == [b0, b1]
      && AdvanceEvery(g.tracks, g.assignment, dets, classes, boxes, kf, cfg)[1].predictedClass == ["ant", ""]
  {
    NewbornPruned();
    NewbornAdvanced();
  }

  /** Deletion and birth on the input of `NewbornLabelWitness`: one track is born. */
  lemma NewbornPruned()
    ensures var d0, d1 := Pos(0.0, 0.0), Pos(5.0, 5.0);
      var b0, b1 := BBox(0.0, 0.0, 1.0, 1.0), BBox(4.0, 4.0, 6.0, 6.0);
      var f1 := Frame([Sample(0, d1, 0)], 1, [1], [], [], []);
      Pruned(f1, [d0, d1], ["ant", "bee"], [b0, b1], Config(1.0, 1, 10, false))
        == Frame([Sample(0, d1, 0), NewTrack(d0, 1, "ant", b0, -1)], 2, [1, -1], [], [], [0])
  {
    var d0, d1 := Pos(0.0, 0.0), Pos(5.0, 5.0);
    var b0, b1 := BBox(0.0, 0.0, 1.0, 1.0), BBox(4.0, 4.0, 6.0, 6.0);
    var cfg := Config(1.0, 1, 10, false);
    var f1 := Frame([Sample(0, d1, 0)], 1, [1], [], [], []);
    var d := Frame([Sample(0, d1, 0)], 1, [1], [], [], []);
    NewbornDeleted();
    NewbornBorn();
    assert Pruned(f1, [d0, d1], ["ant", "bee"], [b0, b1], cfg) == Born(d, [d0, d1], ["ant", "bee"], [b0, b1], cfg);
  }

  /** The deletion step alone: no track is over the limit, so none goes. */
  lemma NewbornDeleted()
    ensures var d1 := Pos(5.0, 5.0);
      var f1 := Frame([Sample(0, d1, 0)], 1, [1], [], [], []);
      Deleted(f1, 2, Config(1.0, 1, 10, false)) == f1
  {
    var d1 := Pos(5.0, 5.0);
    var flags := DeletionFlags([Sample(0, d1, 0)], 1);
    assert flags == [false];
    assert Where(flags) == [] by {
      assert flags[..0] == [];
    }
  }

  /** The birth step alone: detection 0 is not in `assignment`, so one track is born from it. */
  lemma NewbornBorn()
    ensures var d0, d1 := Pos(0.0, 0.0), Pos(5.0, 5.0);
      var b0, b1 := BBox(0.0, 0.0, 1.0, 1.0), BBox(4.0, 4.0, 6.0, 6.0);
      var d := Frame([Sample(0, d1, 0)], 1, [1], [], [], []);
      Born(d, [d0, d1], ["ant", "bee"], [b0, b1], Config(1.0, 1, 10, false))
        == Frame([Sample(0, d1, 0), NewTrack(d0, 1, "ant", b0, -1)], 2, [1, -1], [], [], [0])
  {
    var d0, d1 := Pos(0.0, 0.0), Pos(5.0, 5.0);
    var b0, b1 := BBox(0.0, 0.0, 1.0, 1.0), BBox(4.0, 4.0, 6.0, 6.0);
    var dflags := DetectionFlags([1], 2);
    assert dflags == [true, false];
    var u := Where(dflags);
    assert u == [0] by {
      assert dflags[..1] == [true] && dflags[..1][..0] == [];
      assert Where([true]) == [0];
    }
    assert Spawn([d0, d1], ["ant", "bee"], [b0, b1], u, 1) == [NewTrack(d0, 1, "ant", b0, -1)];
  }

  /** The as-written and the intended per-track loops on the frame `NewbornPruned` computes. */
  lemma NewbornAdvanced()
    ensures var d0, d1 := Pos(0.0, 0.0), Pos(5.0, 5.0);
      var b0, b1 := BBox(0.0, 0.0, 1.0, 1.0), BBox(4.0, 4.0, 6.0, 6.0);
      var dets, classes, boxes := [d0, d1], ["ant", "bee"], [b0, b1];
      var cfg := Config(1.0, 1, 10, false);
      var kf := (id: int, z: Option<Pos>) => d0;
      var g := Frame([Sample(0, d1, 0), NewTrack(d0, 1, "ant", b0, -1)], 2, [1, -1], [], [], [0]);
      var r := Advanced(g, dets, classes, boxes, kf, cfg).tracks[1];
      && r.predictedClass == ["ant", "bee"] && r.bboxTrace == [b0, b1]
      && AdvanceEvery(g.tracks, g.assignment, dets, classes, boxes, kf, cfg)[1].predictedClass == ["ant", ""]
  {
  }

  /**
   * The intended per-track loop: every track in the list, survivors and
   * newborns alike, is advanced, and a track counts as matched exactly when
   * its assignment entry is a detection.
   */
  function AdvanceEvery(ts: seq<TrackState>, a: seq<int>,
                        dets: seq<Pos>, classes: seq<Label>, boxes: seq<BBox>,
                        kf: (int, Option<Pos>) -> Pos, cfg: Config): (r: seq<TrackState>)
    requires |classes| == |dets| && |boxes| == |dets|
    requires |a| == |ts| && AllWellFormed(ts, cfg.maxTraceLength)
    requires forall i :: 0 <= i < |ts| ==> a[i] == -1 || 0 <= a[i] < |dets|
    ensures |r| == |ts| && AllWellFormed(r, cfg.maxTraceLength)
  {
    seq(|ts|, i requires 0 <= i < |ts| => Advance(ts[i], a[i] != -1, a[i], dets, classes, boxes, kf, cfg))
  }

  /**
   * Every track is advanced: its histories grow by one entry taken from its
   * own match (the empty label and the previous box when it has none), its
   * skip counter restarts exactly on a match, its trace ends at its position.
   */
  lemma AdvanceEveryExact(ts: seq<TrackState>, a: seq<int>,
                          dets: seq<Pos>, classes: seq<Label>, boxes: seq<BBox>,
                          kf: (int, Option<Pos>) -> Pos, cfg: Config)
    requires |classes| == |dets| && |boxes| == |dets|
    requires |a| == |ts| && AllWellFormed(ts, cfg.maxTraceLength)
    requires forall i :: 0 <= i < |ts| ==> a[i] == -1 || 0 <= a[i] < |dets|
    ensures var r := AdvanceEvery(ts, a, dets, classes, boxes, kf, cfg);
      forall i :: 0 <= i < |ts| ==>
        && r[i].trackId == ts[i].trackId
        && r[i].predictedClass == ts[i].predictedClass + [if a[i] != -1 then classes[a[i]] else ""]
        && r[i].bboxTrace == ts[i].bboxTrace
             + [if a[i] != -1 then boxes[a[i]] else ts[i].bboxTrace[|ts[i].bboxTrace| - 1]]
        && r[i].skippedFrames == (if a[i] != -1 then 0 else ts[i].skippedFrames)
        && |r[i].trace| == (if |ts[i].trace| > cfg.maxTraceLength then |ts[i].trace| else |ts[i].trace| + 1)
        && r[i].trace[|r[i].trace| - 1] == r[i].prediction
  {
    var r := AdvanceEvery(ts, a, dets, classes, boxes, kf, cfg);
    forall i | 0 <= i < |ts|
      ensures r[i] == Advance(ts[i], a[i] != -1, a[i], dets, classes, boxes, kf, cfg)
    {
    }
  }

  // ---------------------------------------------------------------------------
  // The corrected frame
  // ---------------------------------------------------------------------------

  /** `Tracker.Update` with the three corrections. */
  ghost function UpdateFixed(ts: seq<TrackState>, count: int,
                             dets: seq<Pos>, classes: seq<Label>, boxes: seq<BBox>,
                             dist: (Pos, Pos) -> real, solve: seq<seq<real>> -> seq<int>,
                             kf: (int, Option<Pos>) -> Pos, cfg: Config): (f: Frame)
    requires |classes| == |dets| && |boxes| == |dets|
    requires SolverContract(solve)
    requires AllWellFormed(ts, cfg.maxTraceLength)
    ensures |f.assignment| == |f.tracks| && AllWellFormed(f.tracks, cfg.maxTraceLength)
  {
    var f1 := Classified(ts, count, dets, classes, boxes, dist, solve, cfg);
    var g := Born(DeletedFixed(f1, |dets|, cfg), dets, classes, boxes, cfg);
    g.(tracks := AdvanceEvery(g.tracks, g.assignment, dets, classes, boxes, kf, cfg))
  }

  /**
   * What the corrected frame keeps: ids stay unique and below the counter, no
   * live track has gone unmatched for more than `max_frames_to_skip` frames,
   * and every track's trace ends at its current position.
   */
  lemma UpdateFixedInvariant(ts: seq<TrackState>, count: int,
                             dets: seq<Pos>, classes: seq<Label>, boxes: seq<BBox>,
                             dist: (Pos, Pos) -> real, solve: seq<seq<real>> -> seq<int>,
                             kf: (int, Option<Pos>) -> Pos, cfg: Config)
    requires |classes| == |dets| && |boxes| == |dets|
    requires SolverContract(solve)
    requires AllWellFormed(ts, cfg.maxTraceLength)
    requires IdsUnique(ts) && IdsBelow(ts, count)
    requires cfg.maxFramesToSkip >= 0
    ensures var f := UpdateFixed(ts, count, dets, classes, boxes, dist, solve, kf, cfg);
      && IdsUnique(f.tracks) && IdsBelow(f.tracks, f.count)
      && forall i :: 0 <= i < |f.tracks| ==>
           && f.tracks[i].skippedFrames <= cfg.maxFramesToSkip
           && |f.tracks[i].trace| > 0 && f.tracks[i].trace[|f.tracks[i].trace| - 1] == f.tracks[i].prediction
  {
    var f1 := Classified(ts, count, dets, classes, boxes, dist, solve, cfg);
    ClassifiedKeepsIds(ts, count, dets, classes, boxes, dist, solve, cfg);
    var d := DeletedFixed(f1, |dets|, cfg);
    DeletedFixedKeepsIds(f1, |dets|, cfg);
    var g := Born(d, dets, classes, boxes, cfg);
    BornWithinLimit(d, dets, classes, boxes, cfg);
    AdvanceEveryWithinLimit(g, dets, classes, boxes, kf, cfg);
    assert UpdateFixed(ts, count, dets, classes, boxes, dist, solve, kf, cfg)
      == g.(tracks := AdvanceEvery(g.tracks, g.assignment, dets, classes, boxes, kf, cfg));
  }

  /**
   * The corrected per-track loop keeps the ids and the skip bound, and leaves
   * every trace ending at its track's position.
   */
  lemma AdvanceEveryWithinLimit(g: Frame, dets: seq<Pos>, classes: seq<Label>, boxes: seq<BBox>,
                                kf: (int, Option<Pos>) -> Pos, cfg: Config)
    requires |classes| == |dets| && |boxes| == |dets|
    requires |g.assignment| == |g.tracks| && AllWellFormed(g.tracks, cfg.maxTraceLength)
    requires forall i :: 0 <= i < |g.tracks| ==> g.assignment[i] == -1 || 0 <= g.assignment[i] < |dets|
    requires IdsUnique(g.tracks) && IdsBelow(g.tracks, g.count)
    requires cfg.maxFramesToSkip >= 0
    requires forall i :: 0 <= i < |g.tracks| ==> g.tracks[i].skippedFrames <= cfg.maxFramesToSkip
    ensures var r := AdvanceEvery(g.tracks, g.assignment, dets, classes, boxes, kf, cfg);
      && IdsUnique(r) && IdsBelow(r, g.count)
      && forall i :: 0 <= i < |r| ==>
           && r[i].skippedFrames <= cfg.maxFramesToSkip
           && |r[i].trace| > 0 && r[i].trace[|r[i].trace| - 1] == r[i].prediction
  {
    AdvanceEveryExact(g.tracks, g.assignment, dets, classes, boxes, kf, cfg);
  }

  /** Birth keeps the ids fresh and adds tracks with no skipped frame. */
  lemma BornWithinLimit(d: Frame, dets: seq<Pos>, classes: seq<Label>, boxes: seq<BBox>, cfg: Config)
    requires |classes| == |dets| && |boxes| == |dets|
    requires |d.assignment| == |d.tracks| && AllWellFormed(d.tracks, cfg.maxTraceLength)
    requires forall i :: 0 <= i < |d.assignment| ==> d.assignment[i] == -1 || 0 <= d.assignment[i] < |dets|
    requires IdsUnique(d.tracks) && IdsBelow(d.tracks, d.count)
    requires cfg.maxFramesToSkip >= 0
    requires forall i :: 0 <= i < |d.tracks| ==> d.tracks[i].skippedFrames <= cfg.maxFramesToSkip
    ensures var g := Born(d, dets, classes, boxes, cfg);
      && IdsUnique(g.tracks) && IdsBelow(g.tracks, g.count)
      && forall i :: 0 <= i < |g.tracks| ==> g.tracks[i].skippedFrames <= cfg.maxFramesToSkip
  {
    var g := Born(d, dets, classes, boxes, cfg);
    var born := Spawn(dets, classes, boxes, g.unassignedDetects, d.count);
    SpawnFresh(dets, classes, boxes, g.unassignedDetects, d.count, cfg.maxTraceLength);
    assert g.tracks == d.tracks + born;
    AppendKeepsIds(d.tracks, d.count, born, g.count);
    forall i | 0 <= i < |g.tracks| ensures g.tracks[i].skippedFrames <= cfg.maxFramesToSkip {
      if i >= |d.tracks| {
        assert g.tracks[i] == born[i - |d.tracks|];
      }
    }
  }

  /** The corrected deletion keeps the ids unique and below the counter. */
  lemma DeletedFixedKeepsIds(f: Frame, m: nat, cfg: Config)
    requires |f.assignment| == |f.tracks| && AllWellFormed(f.tracks, cfg.maxTraceLength)
    requires forall i :: 0 <= i < |f.assignment| ==> f.assignment[i] == -1 || 0 <= f.assignment[i] < m
    requires IdsUnique(f.tracks) && IdsBelow(f.tracks, f.count)
    ensures var g := DeletedFixed(f, m, cfg);
      IdsUnique(g.tracks) && IdsBelow(g.tracks, g.count)
  {
    var g := DeletedFixed(f, m, cfg);
    var keep := Where(Negate(DeletionFlags(f.tracks, cfg.maxFramesToSkip)));
    DeletedFixedExact(f, m, cfg);
    WhereExact(Negate(DeletionFlags(f.tracks, cfg.maxFramesToSkip)));
    forall i, j | 0 <= i < j < |g.tracks| ensures g.tracks[i].trackId != g.tracks[j].trackId {
      assert keep[i] < keep[j];
    }
  }
}
