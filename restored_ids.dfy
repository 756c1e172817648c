/**
 * Restoring tracks from persisted `[id, x, y, class, bbox]` records.
 * `initialise_from_prior_state` keeps the record's id but only adds one to
 * the id counter, so the counter can stay at or below a restored id, and a
 * track born later is then given that same id. The corrected restore moves
 * the counter past the restored id; with it, restoring any list of records
 * with distinct ids keeps live ids unique and below the counter, which is
 * what `Properties.UpdateKeepsIdsFresh` needs for every frame that follows.
 */
module RestoredIds {
  import opened Seqs
  import opened Types
  import opened Lifecycle
  import opened Properties

  /** The part of a tracker a restore changes: its tracks and its id counter. */
  datatype Roster = Roster(tracks: seq<TrackState>, count: int)

  /** The track `initialise_from_prior_state` builds from a record. */
  function RestoredTrack(r: Roster, p: PriorState): (t: TrackState)
    ensures t.trackId == if p.id != -1 then p.id else r.count
    ensures WellFormed(t, 0)
  {
    NewTrack(Pos(p.x, p.y), r.count, p.cls, p.bbox, p.id)
  }

  /** As written: the restored track is appended and the counter goes up by one. */
  function Restore(r: Roster, p: PriorState): (r': Roster)
    ensures |r'.tracks| == |r.tracks| + 1 && r'.tracks[..|r.tracks|] == r.tracks
    ensures r'.tracks[|r.tracks|].trackId == if p.id != -1 then p.id else r.count
  {
    Roster(r.tracks + [RestoredTrack(r, p)], r.count + 1)
  }

  /**
   * As written: when the restored id is above the counter, the births that
   * follow count up to it, and the last of `p.id - count` new tracks gets
   * the restored id again. With the counter at 0 and id 5, the fifth track
   * born after the restore is a second track 5.
   */
  lemma RestoreClash(r: Roster, p: PriorState, dets: seq<Pos>, classes: seq<Label>, boxes: seq<BBox>)
    requires p.id != -1 && r.count < p.id
    requires |classes| == |dets| && |boxes| == |dets| && |dets| == p.id - r.count
    ensures var r' := Restore(r, p);
      var ts := r'.tracks + Spawn(dets, classes, boxes, Range(|dets|), r'.count);
      && ts[|r.tracks|].trackId == p.id && ts[|ts| - 1].trackId == p.id
      && !IdsUnique(ts)
  {
    var r' := Restore(r, p);
    var born := Spawn(dets, classes, boxes, Range(|dets|), r'.count);
    var ts := r'.tracks + born;
    assert ts[|r.tracks|] == r'.tracks[|r.tracks|];
    assert ts[|ts| - 1] == born[|dets| - 1];
    assert born[|dets| - 1].trackId == r.count + 1 + (|dets| - 1);
    assert |r.tracks| < |ts| - 1;
  }

  /**
   * The code's own remedy, which the `set_trackIdCount` docstring points to:
   * after a restore, setting the counter to at least the restored id and the
   * old counter makes every live id unique and below the counter again.
   */
  lemma RestoreThenSetCount(r: Roster, p: PriorState, latest: int)
    requires IdsUnique(r.tracks) && IdsBelow(r.tracks, r.count)
    requires p.id == -1 || forall i :: 0 <= i < |r.tracks| ==> r.tracks[i].trackId != p.id
    requires r.count <= latest && p.id <= latest
    ensures var ts := Restore(r, p).tracks;
      IdsUnique(ts) && IdsBelow(ts, latest + 1)
  {
    var ts := Restore(r, p).tracks;
    var t := RestoredTrack(r, p);
    assert ts == r.tracks + [t];
    forall i, j | 0 <= i < j < |ts| ensures ts[i].trackId != ts[j].trackId {
      if j == |r.tracks| {
        assert ts[i] == r.tracks[i] && ts[j] == t;
      }
    }
  }

  /** Corrected: the counter moves past the restored id as well as past its own value. */
  function RestoreFixed(r: Roster, p: PriorState): (r': Roster)
    ensures r'.tracks == Restore(r, p).tracks
    ensures r'.count >= Restore(r, p).count
    ensures r'.tracks[|r.tracks|].trackId < r'.count
    ensures p.id != -1 ==> p.id < r'.count
  {
    var t := RestoredTrack(r, p);
    Roster(r.tracks + [t], if t.trackId < r.count then r.count + 1 else t.trackId + 1)
  }

  /**
   * The corrected restore keeps live ids unique and below the counter, as
   * long as the record's id is not already live.
   */
  lemma RestoreFixedKeepsIds(r: Roster, p: PriorState)
    requires IdsUnique(r.tracks) && IdsBelow(r.tracks, r.count)
    requires p.id == -1 || forall i :: 0 <= i < |r.tracks| ==> r.tracks[i].trackId != p.id
    ensures var r' := RestoreFixed(r, p);
      IdsUnique(r'.tracks) && IdsBelow(r'.tracks, r'.count)
  {
    var r' := RestoreFixed(r, p);
    var t := RestoredTrack(r, p);
    assert r'.tracks == r.tracks + [t];
    forall i, j | 0 <= i < j < |r'.tracks| ensures r'.tracks[i].trackId != r'.tracks[j].trackId {
      if j == |r.tracks| {
        assert r'.tracks[i] == r.tracks[i] && r'.tracks[j] == t;
      }
    }
  }

  /** The corrected restore applied to every record of a list, in order. */
  function RestoreAllFixed(r: Roster, ps: seq<PriorState>): (r': Roster)
    ensures |r'.tracks| == |r.tracks| + |ps| && r'.tracks[..|r.tracks|] == r.tracks
    ensures forall k :: 0 <= k < |ps| && ps[k].id != -1 ==> r'.tracks[|r.tracks| + k].trackId == ps[k].id
  {
    if ps == [] then r
    else
      var r0 := RestoreAllFixed(r, ps[..|ps| - 1]);
      var r' := RestoreFixed(r0, ps[|ps| - 1]);
      assert r'.tracks == r0.tracks + [RestoredTrack(r0, ps[|ps| - 1])];
      assert r'.tracks[..|r.tracks|] == r0.tracks[..|r.tracks|];
      r'
  }

  /**
   * Restoring records with distinct ids, none of them live, keeps live ids
   * unique and below the counter, and leaves the counter above every
   * restored id: a track born afterwards never repeats one.
   */
  lemma {:induction false} RestoreAllFixedKeepsIds(r: Roster, ps: seq<PriorState>)
    requires IdsUnique(r.tracks) && IdsBelow(r.tracks, r.count)
    requires forall k :: 0 <= k < |ps| ==> ps[k].id != -1
    requires forall j, k :: 0 <= j < k < |ps| ==> ps[j].id != ps[k].id
    requires forall k, i :: 0 <= k < |ps| && 0 <= i < |r.tracks| ==> r.tracks[i].trackId != ps[k].id
    ensures var r' := RestoreAllFixed(r, ps);
      && IdsUnique(r'.tracks) && IdsBelow(r'.tracks, r'.count)
      && r.count <= r'.count
      && forall k :: 0 <= k < |ps| ==> ps[k].id < r'.count
    decreases |ps|
  {
    if ps != [] {
      var n := |ps| - 1;
      var r0 := RestoreAllFixed(r, ps[..n]);
      RestoreAllFixedKeepsIds(r, ps[..n]);
      var p := ps[n];
      forall i | 0 <= i < |r0.tracks| ensures r0.tracks[i].trackId != p.id {
        if i < |r.tracks| {
          assert r0.tracks[i] == r0.tracks[..|r.tracks|][i];
        } else {
          assert ps[..n][i - |r.tracks|] == ps[i - |r.tracks|];
        }
      }
      RestoreFixedKeepsIds(r0, p);
      forall k | 0 <= k < n ensures ps[k].id < RestoreFixed(r0, p).count {
        assert ps[..n][k] == ps[k];
      }
    }
  }

  /**
   * Corrected, the input of `RestoreClash` gives no clash: every track born
   * after the restore has an id the restored track does not.
   */
  lemma RestoreFixedThenBirth(r: Roster, p: PriorState, dets: seq<Pos>, classes: seq<Label>, boxes: seq<BBox>)
    requires IdsUnique(r.tracks) && IdsBelow(r.tracks, r.count)
    requires p.id == -1 || forall i :: 0 <= i < |r.tracks| ==> r.tracks[i].trackId != p.id
    requires |classes| == |dets| && |boxes| == |dets|
    ensures var r' := RestoreFixed(r, p);
      var born := Spawn(dets, classes, boxes, Range(|dets|), r'.count);
      IdsUnique(r'.tracks + born) && IdsBelow(r'.tracks + born, r'.count + |dets|)
  {
    RestoreFixedKeepsIds(r, p);
    BirthKeepsIds(RestoreFixed(r, p), dets, classes, boxes);
  }

  /** Tracks born from every detection keep live ids unique and below the counter. */
  lemma BirthKeepsIds(r: Roster, dets: seq<Pos>, classes: seq<Label>, boxes: seq<BBox>)
    requires IdsUnique(r.tracks) && IdsBelow(r.tracks, r.count)
    requires |classes| == |dets| && |boxes| == |dets|
    ensures var born := Spawn(dets, classes, boxes, Range(|dets|), r.count);
      IdsUnique(r.tracks + born) && IdsBelow(r.tracks + born, r.count + |dets|)
  {
    BirthIds(dets, classes, boxes, r.count);
    AppendKeepsIds(r.tracks, r.count, Spawn(dets, classes, boxes, Range(|dets|), r.count), r.count + |dets|);
  }

  /** One track born per detection: ids distinct, from the counter up. */
  lemma BirthIds(dets: seq<Pos>, classes: seq<Label>, boxes: seq<BBox>, count: int)
    requires |classes| == |dets| && |boxes| == |dets|
    ensures var born := Spawn(dets, classes, boxes, Range(|dets|), count);
      && IdsUnique(born) && IdsBelow(born, count + |dets|)
      && forall k :: 0 <= k < |born| ==> count <= born[k].trackId
  {
    SpawnFresh(dets, classes, boxes, Range(|dets|), count, 0);
  }
}
