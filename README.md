# OmniTrax tracker: a verified Dafny model

This project models the multi-object tracker of OmniTrax (`tracker.py`): the
`Track` record and the `Tracker` that matches each frame's detections to its
live tracks. A `Tracker` holds a list of `Track` objects and an id counter
`trackIdCount`. `Tracker.Update` processes one frame in these steps:

- **bootstrap.** With no tracks, it creates one track per detection and then
  carries on with the same frame.
- **cost.** It builds an N x (M + N) cost matrix: the distance from each of
  the N tracks to each of the M detections, followed by N "no match" columns
  priced at `dist_thresh`.
- **solve.** It hands the matrix to an assignment solver.
- **classify.** A track whose column is M or more is unmatched: its
  assignment entry becomes -1 and its skip counter rises by one.
- **delete.** It deletes the tracks whose skip counter exceeds
  `max_frames_to_skip`.
- **birth.** It starts a track for every detection that no track took.
- **per-track update.** Each track gets one more entry in its class and box
  histories. A matched track resets its skip counter and takes its
  detection's position, or the Kalman filter's. The trace is trimmed and then
  extended with the current position.

The administrative operations restore a track from a saved record
(`initialise_from_prior_state`), set the id counter (`set_trackIdCount`) and
drop all tracks (`clear_tracks`).

The model has three layers:

- `types.dfy` and `seqs.dfy` (modules `Types` and `Seqs`) hold the values and
  the list idioms of the source. Those idioms are `range`, building an index
  list by appending in a loop, `del s[k]` inside a loop over positions, and
  negative indexing `s[-1]`.
- `lifecycle.dfy` (module `Lifecycle`) gives one function per step of
  `Update`, on values, reproducing the code as written. `UpdateSpec` chains
  them.
- `tracker.dfy` (module `TrackerImpl`) is the imperative model.
  - `Track` and `Tracker` are classes whose fields are updated in place.
  - `Tracker.tracks` is a `seq<Track>`.
  - Each method has the source's loops and is proved against the `Lifecycle`
    function of its step.
  - `Update` ends with `View()`, the list of track states, and the counter
    equal to the tracks and counter of `UpdateSpec(old(View()), ...)`.

`properties.dfy` (module `Properties`) proves what a frame guarantees.
`stale_indices.dfy` (module `StaleIndices`) records three places where the code works
on positions that earlier steps of the same call made stale. For each one it
gives a concrete input that shows the problem and a corrected step with its
intended property proved. `restored_ids.dfy` (module `RestoredIds`) does the
same for restoring tracks: the counter is not moved past a restored id.

Three things are parameters:

- `dist`: the distance between a track and a detection. It is Euclidean in
  the source.
- `solve`: SciPy's `linear_sum_assignment`, of which only `col_ind` is used.
  Its contract (`SolverContract`) is that an N x W matrix with N <= W gets N
  distinct columns below W.
- `kf`: the Kalman filter's correction. It takes the track's id and the
  measurement, or `None` for a coasting update.

Where the documentation and the code disagree, the model follows the code:

- **Distance.** The `dist_thresh` docstring speaks of squared distance. The
  code compares Euclidean distance, which the model leaves abstract.
- **Box history.** `bbox_trace` is never trimmed, only `trace` is.
- **Box guard.** The test `any(bbox) is not None` is always true, so a box
  history always exists.
- **Restored ids.** Restoring a track is meant to move the id counter past
  the restored id; the code only adds one to it (see Findings).

## Model

| member | source | states |
|---|---|---|
| Types.NewTrack | tracker.py:36-53 | a new track's id is `known_id` unless it is -1, otherwise the counter; it has no skipped frame, one box and one class entry, and is well formed for every trace limit |
| TrackerImpl.Track.constructor | tracker.py:16-53 | the id is `known_id` unless it is -1, otherwise the counter; position as given, no skipped frame, empty trace, the box and the class as the first history entries |
| TrackerImpl.Tracker.constructor | tracker.py:62-91 | settings stored, no tracks, counter as given |
| TrackerImpl.Tracker.AddTrack | tracker.py:142-148 | one new track built with the current counter is appended after the existing ones, which are unchanged; the counter rises by one |
| TrackerImpl.Tracker.InitialiseFromPriorState | tracker.py:93-106 | a restored track is appended keeping the saved id (unless -1), position, class and box, and the counter rises by exactly one, as `RestoredIds.Restore` states; the restored `Track` is a newly allocated object |
| TrackerImpl.Tracker.SetTrackIdCount | tracker.py:108-114 | the counter becomes `latest + 1`, tracks unchanged, the tracker stays valid |
| TrackerImpl.Tracker.ClearTracks | tracker.py:116-120 | no tracks remain, the counter and every setting unchanged |
| TrackerImpl.Tracker.StartTracks | tracker.py:140-148 | one new track per index, in order, with consecutive ids from the counter; the counter rises by the number of indices; old tracks kept |
| TrackerImpl.Tracker.Bootstrap | tracker.py:139-148 | with no tracks, one track per detection (`Bootstrapped`); otherwise nothing changes |
| TrackerImpl.Tracker.CostMatrix | tracker.py:150-166 | N rows of M + N entries: the distance from track i to detection j for j < M, `dist_thresh` in every padding column |
| TrackerImpl.Tracker.SkipFrame | tracker.py:188 | one track's skip counter rises by one, nothing else changes |
| TrackerImpl.Tracker.CopyColumns | tracker.py:169-177 | the N-entry list of -1 with entry `i` overwritten by `col_ind[i]` is exactly the solver's column list |
| TrackerImpl.Tracker.ClassifyRow | tracker.py:180-188 | one classification step: row `i` turns into -1, joins `un_assigned_tracks` and has its counter raised exactly when its column is "no match" |
| TrackerImpl.Tracker.Classify | tracker.py:168-189 | assignment is the solver's column or -1 for a "no match" column, `un_assigned_tracks` lists exactly those tracks in order, and their skip counters (only theirs) rise by one |
| TrackerImpl.Tracker.ClassifyAll | tracker.py:150-189 | cost, solve and classification together give the `ClassifiedFrame` of the current tracks |
| TrackerImpl.Tracker.Match | tracker.py:139-189 | bootstrap then classification give the frame `Classified` computes from the tracks and counter on entry |
| TrackerImpl.Tracker.SelectDeletions | tracker.py:193-197 | `del_tracks` lists, ascending, exactly the positions whose skip counter exceeds `max_frames_to_skip` |
| TrackerImpl.Tracker.RemoveTrack | tracker.py:203 | `del self.tracks[id]`: that one track leaves the list, the others keep their order |
| TrackerImpl.Tracker.DeleteTracks | tracker.py:199-206 | tracks and assignment both become `DeleteEach(_, del_tracks)`: each listed position deleted in the list as already shortened |
| TrackerImpl.UnassignedDetections | tracker.py:208-212 | lists, ascending, exactly the detection indices below M missing from assignment |
| TrackerImpl.Tracker.Birth | tracker.py:208-231 | a new track and an assignment entry -1 for each unassigned detection (`Born`) |
| TrackerImpl.Tracker.Prune | tracker.py:193-231 | deletion then birth give the frame `Pruned` computes |
| TrackerImpl.Tracker.TrimTrace | tracker.py:286-289 | on a trace of at most `max_trace_length + 1` points the trimming loop drops exactly the oldest point when the trace is over the limit, and nothing otherwise |
| TrackerImpl.Tracker.AdvanceTrack | tracker.py:245-291 | one track's new state is `Advance` of its old state |
| TrackerImpl.Tracker.AdvanceAt | tracker.py:242-291 | one step of the per-track loop: position `i` takes its `AdvanceAll` state, the others keep theirs |
| TrackerImpl.Tracker.AdvanceTracks | tracker.py:242-291 | every position is advanced except those in `del_tracks` (`AdvanceAll`) |
| TrackerImpl.Tracker.Finish | tracker.py:193-291 | deletion, birth and the per-track loop give `Advanced(Pruned(...))`; the tracks it adds are newly allocated objects |
| TrackerImpl.Tracker.Update | tracker.py:122-291 | the new track list and counter are those `UpdateSpec` computes from the old ones, and the tracker stays valid (distinct objects, well-formed tracks); every track it adds is a newly allocated object, so a caller can run frame after frame and several trackers stay independent |
| Seqs.Where | tracker.py:180-187 | the index list of a loop that appends each selected position is no longer than the scan, and each entry is a selected position |
| Seqs.WhereExact | tracker.py:180-188 | a list built by appending each selected position holds exactly the selected positions, ascending |
| Seqs.WhereStep | tracker.py:180-183 | scanning one more position appends it to the selected list exactly when it is selected |
| Seqs.RemoveAt | tracker.py:203-204 | `del s[k]`: one element shorter, the elements before `k` in place, the later ones moved down by one |
| Seqs.DeleteEach | tracker.py:200-204 | the shifting deletion loop never lengthens the list |
| Seqs.DeleteEachDistinct | tracker.py:200-204 | deleting from a list of distinct objects leaves distinct objects |
| Seqs.DeleteEachLockstep | tracker.py:200-204 | `tracks` and `assignment` keep equal lengths under the same deletions |
| Seqs.PyIndex | tracker.py:247 | Python indexing: `-1` is the last element, a non-negative index is itself |
| Lifecycle.Spawn | tracker.py:140-148 | the k-th new track is `Track(detections[idxs[k]], count + k, ...)` |
| Lifecycle.SpawnStep | tracker.py:141-148 | one more loop step appends exactly one more new track |
| Lifecycle.SpawnFresh | tracker.py:140-148 | new tracks have distinct ids in `[count, count + n)`, no skipped frame, empty trace, their detection's box and class |
| Lifecycle.PaddedCost | tracker.py:150-166 | the padded matrix is rectangular with N rows and M + N columns, so the solver's contract applies |
| Lifecycle.SolveColumns | tracker.py:173-177 | the solver gives each row its own column below M + N |
| Lifecycle.Unmatched | tracker.py:182 | for a column of -1 or more, the test `assignment[i] == -1 or assignment[i] >= M` holds exactly when the column is not a detection index |
| Lifecycle.UnmatchedFlags | tracker.py:181-182 | one flag per track; the positions it selects (`Where`) are exactly the tracks whose column passes the test `== -1 or >= M` |
| Lifecycle.AssignmentOf | tracker.py:168-188 | each entry is -1 exactly when the solved column is M or more, otherwise that column, below M |
| Lifecycle.BumpSkips | tracker.py:188 | exactly the unmatched tracks' skip counters rise by one |
| Lifecycle.DeletionFlags | tracker.py:194-196 | one flag per track; the positions it selects (`Where`) are exactly the tracks whose skip counter exceeds `max_frames_to_skip` |
| Lifecycle.DetectionFlags | tracker.py:209-211 | one flag per detection index below M; the indices it selects (`Where`) are exactly those not in `assignment` |
| Lifecycle.Trim | tracker.py:270-273 | the trimming loop leaves a trace within the limit unchanged, never lengthens it and keeps only points of the old trace; `TrimOldestFirst` gives its exact effect on live tracks |
| Lifecycle.TrimOldestFirst | tracker.py:286-289 | on a trace at most one point over the limit, trimming removes exactly the oldest point |
| Lifecycle.Advance | tracker.py:245-291 | id kept; skip counter 0 exactly on a real match; without the filter, the detection's position on a match and the old one otherwise; trace trimmed oldest-first then ending at the position; one class and one box entry appended, including `[-1]` for a matched-looking track with entry -1 |
| Lifecycle.AdvanceAll | tracker.py:242-244 | every track keeps its id and stays well formed, and the list length is unchanged |
| Lifecycle.Bootstrapped | tracker.py:139-148 | with no tracks, one per detection and the counter up by M; otherwise unchanged |
| Lifecycle.Classified | tracker.py:139-189 | the frame is `FrameReady`: assignment as long as the tracks, every entry -1 or a detection below M, every track well formed; with no detections every track is unassigned |
| Lifecycle.ClassifiedFrame | tracker.py:179-189 | same as `Classified`, for given tracks and columns |
| Lifecycle.Deleted | tracker.py:193-206 | tracks and assignment stay of equal length and do not grow, entries stay in range, counter unchanged |
| Lifecycle.Born | tracker.py:208-231 | tracks and assignment stay of equal length, entries in range; with no detections nothing is born |
| Lifecycle.Advanced | tracker.py:242-291 | the per-track loop over a frame keeps the list length, every id in its position, well-formedness, the counter and the assignment |
| Lifecycle.UpdateSpec | tracker.py:122-291 | one whole `Update` leaves one assignment entry per track, each -1 or a detection index, and every track well formed; `Properties.UpdateKeepsIdsFresh` gives its id and counter facts |
| Lifecycle.Pruned | tracker.py:193-231 | the list handed to the per-track loop is ready for it: one entry per track, in range, well formed |
| Properties.BootstrapExact | tracker.py:139-148 | bootstrap creates one track per detection, in order, with ids `count + k`, no skipped frame, empty trace; the counter rises by M |
| Properties.ClassificationExact | tracker.py:168-189 | a track is unassigned exactly when its column is M or more, its entry is then -1 and otherwise its detection; its skip counter rises by exactly one and nothing else about any track changes |
| Properties.DeletionExact | tracker.py:193-206 | exactly the tracks over `max_frames_to_skip` are selected; none selected changes nothing; one selected removes exactly that track and its entry, order kept |
| Properties.BirthExact | tracker.py:208-231 | exactly one new track per detection missing from assignment, appended in order with the next ids, each with entry -1; the counter rises once per new track |
| Properties.BirthAppends | tracker.py:215-231 | the birth loop appends `Track(detections[u[k]], count + k, ...)` after the survivors and an entry -1 per new track; the counter rises by the number born |
| Properties.DeleteEachKeepsIds | tracker.py:199-206 | deletions keep ids unique and below the counter |
| Properties.AppendKeepsIds | tracker.py:225-231 | appending tracks with new ids keeps ids unique and below the new counter |
| Properties.BootstrapKeepsIds | tracker.py:139-148 | bootstrap keeps ids unique and below the counter |
| Properties.ClassifiedFrameKeepsIds | tracker.py:179-189 | classification changes no id |
| Properties.ClassifiedKeepsIds | tracker.py:139-189 | bootstrap and classification keep ids unique and below the counter |
| Properties.PrunedKeepsIds | tracker.py:193-231 | deletion and birth keep ids unique and below the counter, which rises by the number born |
| Properties.AdvancedKeepsIds | tracker.py:242-291 | the per-track loop changes no id |
| Properties.UpdateKeepsIdsFresh | tracker.py:122-291 | across a whole `Update`, live ids stay unique and below the counter; the counter rises by exactly the bootstrap's and the birth's new tracks |
| Properties.AdvanceAllEffect | tracker.py:242-291 | a position in `del_tracks` is untouched; any other resets its skip counter exactly on a match and (without the filter) moves to its detection or stays put; its trace ends at its position and stays within `max_trace_length + 1` |
| StaleIndices.MultiDeletionWitness | tracker.py:199-206 | as written, deleting positions 0 and 1 of three tracks removes the first and third: an over-limit track survives, the in-limit one is lost |
| StaleIndices.MultiDeletionLists | tracker.py:193-206 | on that input the selected positions are 0 and 1, the loop keeps only the second track and the intended filter only the third |
| StaleIndices.MultiDeletionFlags | tracker.py:194-197 | skip counters 1, 1, 0 over a limit of 0 select positions 0 and 1 |
| StaleIndices.MultiDeletionLoop | tracker.py:200-204 | deleting position 0 and then position 1 of the shortened list leaves only the second track |
| StaleIndices.MultiDeletionKeep | tracker.py:193-206 | the intended filter on that input keeps only the third track |
| StaleIndices.KeepUnselected | tracker.py:193-206 | the intended deletion never lengthens the list |
| StaleIndices.KeepUnselectedExact | tracker.py:193-206 | the intended deletion keeps exactly the unselected elements, in order |
| StaleIndices.SingleDeletionAgrees | tracker.py:199-206 | with at most one selected track the code as written deletes exactly what is intended |
| StaleIndices.KeptWithinLimit | tracker.py:193-206 | the lists the corrected deletion keeps: equal lengths, entries in range, tracks well formed and none over `max_frames_to_skip` |
| StaleIndices.DeletedFixed | tracker.py:193-206 | after the corrected deletion no track exceeds `max_frames_to_skip`; tracks and assignment stay of equal length |
| StaleIndices.DeletedFixedExact | tracker.py:193-206 | the corrected deletion keeps exactly the tracks within the limit with their entries, in order, and agrees with the code when at most one is over |
| StaleIndices.DeletedFixedKeepsIds | tracker.py:193-206 | the corrected deletion keeps ids unique and below the counter |
| StaleIndices.SkippedSurvivorWitness | tracker.py:242-244 | as written, after one deletion the surviving matched track sits at a position in `del_tracks` and is not updated at all |
| StaleIndices.SurvivorDeleted | tracker.py:193-206 | the deletion step of that input |
| StaleIndices.SurvivorBorn | tracker.py:208-231 | the birth step of that input: nothing born |
| StaleIndices.SurvivorPruned | tracker.py:193-231 | deletion and birth of that input |
| StaleIndices.SurvivorAdvanced | tracker.py:242-291 | the per-track loop on that input, as written and corrected |
| StaleIndices.NewbornLabelWitness | tracker.py:208-255 | as written, through deletion, birth and the per-track loop, a track born from detection 0 while detection 1 matched an existing track has position 1, not in `un_assigned_tracks`, and records detection 1's class and box as its second history entries; the intended loop records `""` |
| StaleIndices.NewbornPruned | tracker.py:193-231 | deletion and birth on that input: nothing deleted, one track born from detection 0 at position 1 with entry -1 |
| StaleIndices.NewbornDeleted | tracker.py:193-206 | the deletion step of that input removes nothing |
| StaleIndices.NewbornBorn | tracker.py:208-231 | the birth step of that input appends one track for detection 0 |
| StaleIndices.NewbornAdvanced | tracker.py:242-255 | the as-written and intended per-track loops on the pruned frame of that input |
| StaleIndices.AdvanceEvery | tracker.py:242-291 | the corrected loop advances every track and keeps them well formed |
| StaleIndices.AdvanceEveryExact | tracker.py:242-291 | every track gets its own match's class and box (or `""` and its previous box), skip counter 0 exactly on a match, a trace ending at its position |
| StaleIndices.AdvanceEveryWithinLimit | tracker.py:242-291 | the corrected loop keeps ids and the skip bound, every trace ends at its position |
| StaleIndices.BornWithinLimit | tracker.py:208-231 | birth keeps ids fresh and adds tracks with no skipped frame |
| StaleIndices.UpdateFixed | tracker.py:122-291 | the corrected frame keeps tracks and assignment of equal length, every track well formed |
| StaleIndices.UpdateFixedInvariant | tracker.py:122-291 | with the corrections, ids stay unique and below the counter, no live track exceeds `max_frames_to_skip`, every trace ends at its position |
| RestoredIds.RestoredTrack | tracker.py:99-104 | the restored track keeps the record's id unless it is -1, when it takes the counter; it is well formed |
| RestoredIds.Restore | tracker.py:93-106 | as written: the restored track is appended after the unchanged tracks, with the record's id (the counter for -1) |
| RestoredIds.RestoreClash | tracker.py:100-105 | as written, when the record's id is above the counter, the `id - count`-th track born afterwards gets the restored id again, so live ids are no longer unique |
| RestoredIds.RestoreThenSetCount | tracker.py:108-114 | after a restore, `set_trackIdCount` with a value at least the restored id and the old counter makes live ids unique and below the counter again |
| RestoredIds.RestoreFixed | tracker.py:93-106 | corrected: the same tracks as the code, and the counter ends above its old value, above the restored track's id and above the record's id |
| RestoredIds.RestoreFixedKeepsIds | tracker.py:93-106 | the corrected restore of an id that is not live keeps ids unique and below the counter |
| RestoredIds.RestoreAllFixed | tracker.py:93-106 | restoring a list of records keeps the old tracks and appends one track per record, with that record's id |
| RestoredIds.RestoreAllFixedKeepsIds | tracker.py:93-106 | restoring records with distinct ids, none of them live, keeps ids unique and below the counter, which ends above every restored id |
| RestoredIds.RestoreFixedThenBirth | tracker.py:100-105 | after the corrected restore, the tracks born next have ids distinct from every live one, the restored one included |
| RestoredIds.BirthKeepsIds | tracker.py:215-231 | tracks born from every detection, appended after tracks whose ids are unique and below the counter, keep ids unique and below the raised counter |
| RestoredIds.BirthIds | tracker.py:215-231 | tracks born from every detection have distinct ids from the counter up, below the counter plus M |

## Left out

- The Kalman filter (`KF.predict`, `KF.update`, `KF.lastResult`, and the tuning values `dt`, `u_x`, `u_y`, `std_acc`, `x_std_meas`, `y_std_meas`) is an external module of floating-point matrix code. The model replaces it by the oracle `kf`, called where the source calls `KF.update`.
- The filter's own state is not modelled. `KF.predict()` (tracker.py:259) advances the filter before each update, and every `KF.update` (tracker.py:263-268) moves it on. The oracle `kf(id, measurement)` has no state, so in the model two coasting updates of the same track land on the same position, where the source's filter keeps moving. `KF.lastResult` (tracker.py:276) is written but never read in `tracker.py`.
- `linear_sum_assignment` is a foreign call. Only its documented shape is assumed (one distinct column per row), not its optimality. `row_ind` is taken to be `0..N-1`, which is what SciPy returns.
- The distance (`np.sqrt` of the squared differences) is floating point, so it is the parameter `dist`. Coordinates are `real`, with no rounding.
- `print` diagnostics, numpy array shaping and the `[:2]` slice of a 2-element centroid have no effect on the state.
- The path with `predicted_classes is None` or `bounding_boxes is None` is not modelled; classes and boxes are required, one per detection. With `bounding_boxes=None` every frame with a track raises, since `any(None)` fails at tracker.py:250 (and bootstrap indexes the list at tracker.py:146). With `predicted_classes=None` but boxes given, the source runs when tracks already exist: births take the `else` branch at tracker.py:217 and the per-track loop skips the class append at tracker.py:245. That path, whose tracks get shorter class histories, is left out.
- TrackerImpl.Tracker.constructor: `maxTraceLength` is a `nat`. The source also accepts a negative `max_trace_length`, and then the first update of any track raises `IndexError` at tracker.py:273 or :289, because `del trace[0]` runs on an empty trace. That failing configuration is not modelled.
- TrackerImpl.Tracker.SetTrackIdCount: `int(latest_trackid)` truncates a non-integer argument; the model takes an integer.
- Lifecycle.Trim: on a trace more than one point over the limit it skips each deletion whose position has fallen off the shortened list, where the source's loop (tracker.py:271-273, 286-289) raises `IndexError`. No live track reaches that case: `WellFormed` keeps every trace within `max_trace_length + 1` points, and `TrimOldestFirst` gives Trim's exact effect on those traces.
- TrackerImpl.Tracker.TrimTrace: requires a trace at most one point over the limit, which every live track satisfies (`WellFormed`). On longer traces the source's loop deletes every other point or raises `IndexError`; that case is not modelled.
- TrackerImpl.Tracker.InitialiseFromPriorState: follows the code as written: the counter rises by one even when the restored id is at or above it (see Findings). The corrected restore is the separate specification `RestoredIds.RestoreFixed`, on values.
- TrackerImpl.Tracker.Update: follows the code as written, including the stale positions shown under Findings. The corrected behaviour is the separate specification `StaleIndices.UpdateFixed`, on values; no second class implements it.
- Aliasing of a `Track` object outside the tracker's list is not modelled: `Valid()` requires the list to hold distinct objects, which all operations keep.

## Findings

| source | as written | input that shows it | evidently intended | confidence | as-written member | corrected member |
|---|---|---|---|---|---|---|
| tracker.py:100-105 | the restored track keeps `known_id = prior_state[0]`, but the counter only rises by one, so it can stay at or below the restored id | counter 0, restore id 5, then five tracks born: they get ids 1 to 5, and the fifth repeats the restored id 5 | the counter moves past every restored id, so live ids stay unique | not executed | RestoredIds.RestoreClash | RestoredIds.RestoreAllFixedKeepsIds |
| tracker.py:199-206 | each `del self.tracks[id]` uses a position from before the earlier deletions of the same loop | three tracks, `max_frames_to_skip = 0`, skip counters 1, 1, 0: positions 0 and 1 are deleted in turn, removing the first and third tracks | delete exactly the tracks over the limit; no surviving track exceeds `max_frames_to_skip` | not executed | StaleIndices.MultiDeletionWitness | StaleIndices.DeletedFixedExact |
| tracker.py:242-244 | `if i in del_tracks: continue` tests positions from before the deletions on the shortened list | two tracks, the first over the limit and the second matched to the only detection: the survivor moves to position 0, is skipped, and its trace, histories and skip counter are not updated | every surviving track is advanced | not executed | StaleIndices.SkippedSurvivorWitness | StaleIndices.AdvanceEveryExact |
| tracker.py:245-255 | the match test `i not in un_assigned_tracks` uses positions from before deletion and birth, so a new track looks matched while its assignment entry is -1 | a track born from detection 0 while detection 1 matched an existing track appends `predicted_classes[-1]` and `bounding_boxes[-1]`, detection 1's | a track counts as matched exactly when its assignment entry is a detection; otherwise it appends `""` and repeats its previous box | not executed | StaleIndices.NewbornLabelWitness | StaleIndices.AdvanceEveryExact |
