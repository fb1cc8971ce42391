# Cyclist counting: tracker, crossing tests and trip counter

This project models, in Dafny, the counting core of a small computer-vision
application that counts cyclists in a video:

- **Centroid tracker** (`CentroidTracker` in `app.py`): it keeps a table from
  object ids to centroids and miss counts. Each frame it matches the live
  tracks to the detected boxes' centroids: rows by nearest distance, each row
  taking its nearest column unless that row or column is already used. It then
  ages the unmatched tracks, deregistering the ones missing for too long, or
  registers the unmatched inputs as new tracks.
- **Horizontal line counter** (`app.py`): every track keeps a deque of its last
  30 centroids. A track is counted once, the first time its last step crosses
  the horizontal line at half the frame height.
- **Segment line counter** (`src/video_processing.py`): the same counting body,
  where a step counts when it intersects a user-given segment. The
  intersection test is built from `orientation`, `on_segment` and
  `do_intersect`.
- **Trip counter** (`bicycle-trip-counter/app.py`): every 15th frame is
  classified. A trip is counted on each positive sampled frame that is the
  first sampled frame or whose previous sampled frame was negative.

The files:

- `geometry.dfy` (module `Geometry`): integer points and the three geometric
  predicates, with their symmetries.
- `intersection.dfy` (module `Intersection`): what `do_intersect` decides.
  The two closed segments have a point of the plane in common, with real
  coordinates allowed. The test answers true exactly then.
- `ranking.dfy` (module `Ranking`): the numpy reductions the tracker uses:
  row minimum, first argmin and an argsort.
- `tracker.dfy` (module `TrackerModel`):
  - the tracker's table as a value (`Tracks`);
  - `UpdateSpec`, the specification of one `update` call, with its lemmas;
  - the class `CentroidTracker`, whose fields `nextObjectId`, `objects`,
    `disappeared` and `maxDisappeared` follow the Python object. Its methods
    change those fields as the source does and are proved against
    `UpdateSpec`.
- `line_counting.dfy` (module `LineCounting`):
  - the per-frame counting body as a specification (`Frame`) covering both
    line kinds;
  - the loops that carry it out (`CountHorizontal`, `CountSegment`);
  - characterisations of a whole run (`Run`);
  - the video loops `CountCyclists` (tracker plus horizontal line) and
    `CountCrossings` (segment line over given tracker output).
- `trip_counter.dfy` (module `TripCounter`): the sampled rising-edge counter.
  It is a step function and the loop that follows it, shown equal to an
  independent description: the rising edges of the sampled classifier answers.

A zero-length counting line (both ends the same point) is reported as
crossed when that point lies on the path's step: the first collinear check
(src/video_processing.py:70) accepts it. The model does the same
(`Geometry.DegenerateLineOnPath`).

Python's dictionaries keep insertion order. Ids are issued in increasing
order and never reused, so `list(self.objects.keys())` is the live ids in
ascending order (`KeysBelow`).

## Model

| member | source | states |
|---|---|---|
| Geometry.Orientation | src/video_processing.py:35-48 | the result is 0, 1 or 2; 0 exactly when the determinant of (q-p, r-p) is zero, 1 exactly when it is negative (the value at lines 45-46 positive), 2 exactly when it is positive |
| Geometry.TurnIsNegatedDet | src/video_processing.py:45-46 | the value `orientation` classifies is the negated textbook determinant |
| Geometry.Turn | src/video_processing.py:45-46 | the value `val` that `orientation` classifies; TurnIsNegatedDet shows it is the negated determinant of q - p and r - p |
| Geometry.OrientationSwap | src/video_processing.py:45-48 | swapping the last two points exchanges 1 and 2 and keeps 0 |
| Geometry.OrientationRotate | src/video_processing.py:45-48 | rotating the triple to (q, r, p) keeps the result |
| Geometry.OrientationSwapFirst | src/video_processing.py:45-48 | swapping the first two points exchanges 1 and 2 and keeps 0 |
| Geometry.OnSegment | src/video_processing.py:50-56 | true exactly when q lies in the closed axis-aligned box spanned by p and r |
| Geometry.OnSegmentSymmetric | src/video_processing.py:50-56 | the answer is the same with p and r exchanged |
| Geometry.OnSegmentAtEndpoints | src/video_processing.py:50-56 | an endpoint lies on its own segment |
| Geometry.DoIntersect | src/video_processing.py:58-75 | the general case, then the four collinear checks in the order of the source; Intersection.DoIntersectIffMeet shows it is true exactly when the two closed segments share a point |
| Intersection.DoIntersectIffMeet | src/video_processing.py:58-75 | `do_intersect` is true exactly when the two closed segments have a point of the plane in common |
| Intersection.DoIntersectSound | src/video_processing.py:58-75 | whenever `do_intersect` answers true, the two segments have a common point |
| Intersection.DoIntersectComplete | src/video_processing.py:58-75 | whenever the two segments have a common point, `do_intersect` answers true |
| Intersection.GeneralCaseMeets | src/video_processing.py:66-67 | when the ends of each segment get different orientations from the other segment's line, the segments have a common point |
| Intersection.SegmentReachesLine | src/video_processing.py:60-61 | when p2 and q2 get different orientations from the line p1q1, some point of the segment p2q2 lies on that line |
| Intersection.SegmentTouchesLine | src/video_processing.py:60-61 | a segment p2q2 with a point on the line p1q1 has ends with different orientations from that line, or both ends on it |
| Intersection.CollinearOnSegment | src/video_processing.py:50-56 | a point collinear with p and r inside their box lies on the closed segment pr, as the comment on `on_segment` assumes |
| Intersection.PointOfSegment | src/video_processing.py:50-56 | a point of a segment is collinear with its ends and passes `on_segment` for it |
| Intersection.CollinearMeet | src/video_processing.py:70-73 | collinear segments with a common point meet one of the collinear special cases |
| Intersection.CollinearTransfer | src/video_processing.py:62-63 | for segments with a common point, p1 and q1 on the line p2q2 puts p2 and q2 on the line p1q1 |
| Intersection.CrossingPointUnique | src/video_processing.py:66-67 | two lines that are not parallel have at most one common point |
| Geometry.DoIntersectSymmetric | src/video_processing.py:58-75 | the answer does not depend on which segment comes first |
| Geometry.DoIntersectReverseFirst | src/video_processing.py:58-75 | reversing the first segment keeps the answer |
| Geometry.DoIntersectReverseSecond | src/video_processing.py:58-75 | reversing the second segment keeps the answer |
| Geometry.DoIntersectSharedEndpoint | src/video_processing.py:58-75 | segments sharing an endpoint always intersect |
| Geometry.DegenerateLineOnPath | src/video_processing.py:70 | a zero-length line whose point lies on the path segment is reported as intersecting |
| Geometry.DegenerateLineOffPath | src/video_processing.py:58-75 | a zero-length line off the path's line is never reported |
| Geometry.PathAcrossLine | src/video_processing.py:58-75 | the path (10,40)->(10,60) intersects the line (0,50)-(100,50) |
| Geometry.PathShortOfLine | src/video_processing.py:58-75 | the path (10,40)->(10,45) does not intersect the line (0,50)-(100,50) |
| Ranking.RowMin | app.py:66 | `D.min(axis=1)` for one row: an element of the row, no larger than any element |
| Ranking.ArgMin | app.py:67 | `D.argmin(axis=1)` for one row: an index of a smallest element, the first one |
| Ranking.ArgMinIsRowMin | app.py:66-67 | the argmin column holds the row minimum |
| Ranking.ArgSort | app.py:66 | `argsort`: every index exactly once, keys non-decreasing along the result, equal keys in index order |
| TrackerModel.HalfTowardZero | app.py:54-55 | `int(s / 2.0)`: the half of s truncated toward zero, for either sign |
| TrackerModel.Centroid | app.py:54-56 | a box's centroid: each coordinate is the half of the sum of the box's two edges, truncated toward zero (HalfTowardZero) |
| TrackerModel.Centroids | app.py:52-56 | one centroid per box, in box order; CentroidTracker.InputCentroids fills its buffer with exactly these |
| TrackerModel.Registered | app.py:35-38 | `register`: the centroid under next_object_id with a miss count of 0, and the id advanced; CentroidTracker.Register does this to its fields |
| TrackerModel.Deregistered | app.py:40-42 | `deregister`: the id removed from both tables; CentroidTracker.Deregister does this to its fields |
| TrackerModel.RegisterAll | app.py:59-60 | `register` on each centroid in turn; RegisterAllKeys, RegisterAllNew and RegisterAllKeeps give its ids and entries |
| TrackerModel.AgeOne | app.py:89-91 | one more miss for one id, and the id dropped when its count exceeds max_disappeared; AgedStep relates it to Aged |
| TrackerModel.Aged | app.py:46-49 | every listed id gets one more miss and is dropped past the limit, other tracks untouched; AgedStep shows it is AgeOne id by id, in any order |
| TrackerModel.Ids | app.py:62 | `list(self.objects.keys())`: the live ids in ascending order (KeysBelow, IdsEnumerate) |
| TrackerModel.Distances | app.py:65 | the matrix D: one row per track centroid, one column per input, each entry the squared distance of the pair |
| TrackerModel.RowMins | app.py:66 | `D.min(axis=1)`: the RowMin of each row, one per row |
| TrackerModel.Cols | app.py:67 | `D.argmin(axis=1)[rows]`: the first argmin of each listed row, a column of that row |
| TrackerModel.Greedy | app.py:72-81 | the matches the zip loop commits, as a map from row to column; the Greedy lemmas show the pairs come from the list, no column is used twice and each step's decision |
| TrackerModel.Matched | app.py:76-78 | each matched row's track takes its input's centroid and a miss count of 0; MatchedEffect and MatchedRow give the whole table |
| TrackerModel.Unmatched | app.py:84 | the centroids of the unused columns, in ascending column order; RegisterAfterMatchColumns gives the ids they receive |
| TrackerModel.UpdateSpec | app.py:44-95 | one `update` as a value, with its three branches; UpdateWellFormed, UpdateEmptyFrame, UpdateNoTracks, UpdateMoreTracks and UpdateMoreInputs state its effect, and CentroidTracker.Update is proved to produce it |
| TrackerModel.KeysBelow | app.py:62 | `list(d.keys())` for ids issued in increasing order: strictly increasing, exactly the keys below the next id |
| TrackerModel.RegisterAllKeys | app.py:35-38 | registering n centroids adds exactly the ids next_object_id .. next_object_id+n-1 to both tables |
| TrackerModel.RegisterAllKeeps | app.py:35-38 | registering leaves every existing id's centroid and miss count unchanged |
| TrackerModel.RegisterAllNew | app.py:35-38 | the i-th registered centroid is stored under next_object_id+i with miss count 0 |
| TrackerModel.RegisterAllEffect | app.py:35-38 | the three facts above together, for a table whose ids are all below next_object_id |
| TrackerModel.RegisterAllSnoc | app.py:59-60 | registering one more centroid is one more `register` call |
| TrackerModel.AgedStep | app.py:87-91 | the misses of unmatched tracks can be counted one id at a time, in any order |
| TrackerModel.GreedyFromPairs | app.py:72-81 | every match comes from a pair of zip(rows, cols) |
| TrackerModel.GreedyInjective | app.py:72-81 | no input column is given to two tracks |
| TrackerModel.GreedyRowsListed | app.py:72-81 | only listed rows are matched |
| TrackerModel.GreedyDecisionAt | app.py:72-81 | for distinct rows, a row is matched exactly when its column was not taken earlier, and then to that column |
| TrackerModel.GreedyDecision | app.py:72-81 | the same for every row at once |
| TrackerModel.GreedyBounds | app.py:72-81 | matched rows and columns lie within the matrix |
| TrackerModel.Assign | app.py:62-81 | the distance matrix has one row per track; every match is a valid (track, input) pair |
| TrackerModel.MatchedStep | app.py:76-78 | taking one more pair changes only that track: its centroid becomes the input and its miss count 0 |
| TrackerModel.MatchedEffect | app.py:72-81 | after matching, the key sets and next id are unchanged; matched rows hold their input with 0 misses; unmatched rows and unlisted ids are unchanged |
| TrackerModel.MatchedRow | app.py:76-78 | one row after matching: updated when matched, unchanged otherwise |
| TrackerModel.MatchedKeys | app.py:72-81 | matching adds and removes no id |
| TrackerModel.MatchedWellFormed | app.py:72-81 | matching keeps the table well formed |
| TrackerModel.IdsEnumerate | app.py:62 | the ordered id list has no duplicates and lists exactly the live ids |
| TrackerModel.KeysBelowCount | app.py:62 | the ordered id list has one entry per id |
| TrackerModel.IdsCount | app.py:62-63 | the ordered id list has one entry per live track |
| TrackerModel.AgedWellFormed | app.py:46-49 | ageing keeps the table well formed, never adds an id, keeps next_object_id |
| TrackerModel.RegisterAllWellFormed | app.py:35-38 | registering keeps the table well formed |
| TrackerModel.UpdateMatchCase | app.py:61-94 | with live tracks and inputs, `update` is matching followed by ageing (tracks >= inputs) or registering the unmatched columns (tracks < inputs) |
| TrackerModel.UpdateWellFormed | app.py:44-95 | `update` keeps both tables on the same keys, every id below next_object_id and every miss count within the patience; next_object_id never decreases, and every new id is fresh |
| TrackerModel.UpdateEmptyFrame | app.py:45-50 | an empty frame: a track survives exactly when its miss count plus one is at most max_disappeared, survivors keep their centroid and count one more miss, next id unchanged |
| TrackerModel.EmptyFramesAge | app.py:45-50 | after n empty frames, exactly the tracks with miss count + n <= max_disappeared remain, with count + n misses |
| TrackerModel.EmptyFramesDrain | app.py:45-50 | after max_disappeared + 1 empty frames no track remains |
| TrackerModel.UpdateNoTracks | app.py:58-60 | with no live track, `update` registers every input centroid in order |
| TrackerModel.UpdateFirstFrame | app.py:53-60 | with no live track, n boxes give exactly the ids next_object_id .. +n-1, each with its box's centroid and 0 misses |
| TrackerModel.AssignmentOneToOne | app.py:69-81 | each input is taken by at most one track |
| TrackerModel.AssignmentRowOrder | app.py:66 | the rows are every track exactly once, by non-decreasing row minimum |
| TrackerModel.AssignmentDecision | app.py:67-81 | each row's column is its argmin; a row stays unmatched exactly when that column was already used by an earlier row |
| TrackerModel.AssignmentTakesArgMin | app.py:67-81 | a matched track gets its own row's argmin column |
| TrackerModel.AssignmentNearest | app.py:65-81 | a matched track's input is one nearest to its centroid |
| TrackerModel.RowIdsMember | app.py:87-88 | an unused row's id is aged exactly when the row is unused |
| TrackerModel.AgeAfterMatchRow | app.py:76-91 | a matched track survives ageing with its input and 0 misses |
| TrackerModel.AgeAfterMatchMatched | app.py:76-91 | the same for every matched row |
| TrackerModel.AgeAfterMatchUnmatched | app.py:86-91 | every unmatched track counts one more miss and survives exactly within max_disappeared |
| TrackerModel.MatchThenAge | app.py:72-91 | tracks >= inputs: no id is registered, the key sets stay equal, matched rows updated, unmatched rows aged |
| TrackerModel.RegisterAfterMatchColumns | app.py:92-94 | the j-th unused column becomes the track with id next_object_id + j, with 0 misses |
| TrackerModel.RegisterAfterMatchRows | app.py:72-94 | registering keeps matched rows at their inputs and unmatched tracks exactly as they were |
| TrackerModel.MatchThenRegister | app.py:72-94 | tracks < inputs: ids grow by exactly the unused columns, no existing miss count changes, matched rows updated |
| TrackerModel.UpdateMoreTracks | app.py:86-91 | `update` with at least as many tracks as inputs: no new id, matched tracks updated, unmatched ones aged or deregistered |
| TrackerModel.UpdateMoreInputs | app.py:92-94 | `update` with fewer tracks than inputs: every unused column registered in column order, existing tracks otherwise unchanged |
| TrackerModel.CentroidTracker.constructor | app.py:29-33 | an empty, well-formed tracker with the given max_disappeared |
| TrackerModel.CentroidTracker.InputCentroids | app.py:52-56 | the freshly allocated buffer holds, at position i, the centroid of box i, and nothing else |
| TrackerModel.CentroidTracker.Register | app.py:35-38 | the new state is one `register` of the centroid; well-formedness is kept |
| TrackerModel.CentroidTracker.Deregister | app.py:40-42 | the id is removed from both tables; well-formedness is kept |
| TrackerModel.CentroidTracker.Miss | app.py:89-91 | one more miss for the id, deregistering it beyond max_disappeared |
| TrackerModel.CentroidTracker.MissAll | app.py:46-49 | the loop over the listed ids ages exactly those ids |
| TrackerModel.CentroidTracker.RegisterEach | app.py:59-60 | the loop registers the inputs in order |
| TrackerModel.CentroidTracker.Rematch | app.py:76-78 | the track moves to the centroid with miss count 0 |
| TrackerModel.CentroidTracker.TakePair | app.py:73-81 | one pair of the loop: skipped when its row or column is used, otherwise taken, keeping the used sets equal to the matching's rows and columns |
| TrackerModel.CentroidTracker.MatchPairs | app.py:69-81 | used rows and columns are exactly those of the greedy matching, and the table is the matched table |
| TrackerModel.CentroidTracker.MissRows | app.py:87-91 | the loop over unused rows ages exactly their tracks, in any order |
| TrackerModel.CentroidTracker.RegisterColumns | app.py:93-94 | the loop registers the unused columns' centroids in column order |
| TrackerModel.CentroidTracker.Rank | app.py:62-67 | the ids are the live ids in ascending order; D holds the squared distance of every track and input; the rows list every row once, ordered by non-decreasing row minimum; each column is its row's first argmin |
| TrackerModel.CentroidTracker.AssignAndResolve | app.py:62-94 | matching, then ageing or registering, as UpdateMatchCase describes |
| TrackerModel.CentroidTracker.Update | app.py:44-95 | `update(rects)` performs UpdateSpec on the fields, keeps the tracker well formed and returns objects |
| LineCounting.Append | app.py:164-166 | `deque(maxlen=30).append`: the last element is the new centroid and the length is min(len+1, 30) |
| LineCounting.AppendRecent | app.py:164-166 | appending to the last 30 sightings gives the last 30 sightings of the longer history |
| LineCounting.AppendKeepsPrevious | app.py:174-175 | after an append to a non-empty path, `path[-2]` is the previous last point |
| LineCounting.Crosses | app.py:177-181 | the horizontal test: from above the line to on or below it, or from below to on or above it; for a segment line, do_intersect of the step and the segment (src/video_processing.py:139) |
| LineCounting.PathAfter | app.py:163-166 | an id's trajectory once its centroid is appended, starting from an empty deque for a new id; AppendRecent and RunPaths give its contents |
| LineCounting.CountsAt | app.py:174-183 | the counting test for one sighting: a previous point exists, the id is not yet counted and the last step crosses; FrameCounts states it for a whole frame |
| LineCounting.Observe | app.py:163-184 | one sighting: the trajectory grows, and the id is counted once when CountsAt holds; SightHorizontal and SightSegment are proved equal to it |
| LineCounting.Frame | app.py:161-184 | one pass over a frame's objects, independent of their order; FrameObserve, FrameCounts and FrameConsistent state its effect |
| LineCounting.FrameObserve | app.py:161-184 | one frame's pass is its sightings one after another, in any order of the ids |
| LineCounting.FrameStepCounted | app.py:177-183 | one more sighting adds its id to counted_ids exactly when it counts |
| LineCounting.FrameStepCount | app.py:177-183 | one more sighting raises bicycle_count by one exactly when it counts |
| LineCounting.SightHorizontal | app.py:163-184 | one sighting against the horizontal line: both crossing branches, each once per id |
| LineCounting.SightSegment | src/video_processing.py:122-141 | one sighting against the segment line |
| LineCounting.HorizontalTurn | app.py:161-184 | one turn of the frame loop on the horizontal line: from Frame over the ids done so far to Frame over one more id |
| LineCounting.SegmentTurn | src/video_processing.py:118-144 | one turn of the frame loop on the segment line: from Frame over the ids done so far to Frame over one more id |
| LineCounting.CountHorizontal | app.py:161-184 | the loop over the frame's objects computes Frame for the horizontal line |
| LineCounting.CountSegment | src/video_processing.py:118-144 | the loop over the frame's objects computes Frame for the segment line |
| LineCounting.FrameConsistent | app.py:161-184 | for either line (also src/video_processing.py lines 118-144): bicycle_count stays equal to the number of counted ids, counted ids have paths, every path holds 1 to 30 points; counted ids and the count never shrink |
| LineCounting.FrameCounts | app.py:174-183 | for either line (also src/video_processing.py lines 135-141): an id is counted after a frame exactly when it was already counted or it had a path and its step from the last point crosses the line |
| LineCounting.StartOnLineNeverCrosses | app.py:177-181 | a step starting on the line is never counted |
| LineCounting.StillNeverCrosses | app.py:177-181 | a track that does not move is never counted |
| LineCounting.HorizontalReversible | app.py:177-181 | off the line, crossing downwards and upwards count alike |
| LineCounting.RunSnoc | app.py:153-184 | one more frame is one more pass of the counting body |
| LineCounting.RunPrefix | app.py:153-184 | the same for prefixes of the frame list |
| LineCounting.Run | app.py:153-184 | the counter after a video, one Frame per frame; RunConsistent, RunMonotone and RunPaths state its invariant, monotonicity and trajectories |
| LineCounting.RunConsistent | app.py:153-184 | for either line (also src/video_processing.py lines 105-144): the invariant holds after any number of frames |
| LineCounting.RunMonotone | app.py:153-184 | for either line (also src/video_processing.py lines 105-144): the count and the counted ids never decrease over more frames |
| LineCounting.RunPaths | app.py:163-166 | for either line (also src/video_processing.py lines 122-125): an id has a path exactly when it was seen, and the path is its 30 most recent centroids in order |
| LineCounting.TrackedPrefix | app.py:153-159 | the tracker's output for one more frame is one more `update` |
| LineCounting.Tracked | app.py:158-159 | the tracker's table after each frame's update, in order; its ensures keeps the table well formed |
| LineCounting.TrackedObjects | app.py:158-159 | the `objects` each frame's update returns, one map per frame |
| LineCounting.CountCyclists | app.py:140-184 | the video loop with the tracker and the line at `h // 2` counts what Run specifies |
| LineCounting.CountCrossings | src/video_processing.py:105-144 | the video loop over the tracker's output counts what Run specifies |
| TripCounter.Step | bicycle-trip-counter/app.py:69-77 | frame_count rises by 1; unsampled frames change nothing else; a sampled frame sets the flag to its answer; the count rises, by exactly one, exactly on a sampled positive with the flag false |
| TripCounter.RunFrom | bicycle-trip-counter/app.py:64-77 | the loop run from a given state over the answers for the remaining frames; RunFromAppend, RunFromFrameCount and RunFromMonotone state its properties |
| TripCounter.Run | bicycle-trip-counter/app.py:55-77 | the loop from its initial variables over a whole video; RunIsRisingEdges shows its count is the rising edges of the sampled answers |
| TripCounter.SampledAt | bicycle-trip-counter/app.py:56-69 | the k-th classified frame is frame 15k |
| TripCounter.SampledCount | bicycle-trip-counter/app.py:56-69 | n frames contain ceil(n / 15) classified frames |
| TripCounter.RisingEdgesAtMostPositives | bicycle-trip-counter/app.py:71-75 | rising edges are at most the positives |
| TripCounter.RunIsRisingEdges | bicycle-trip-counter/app.py:64-77 | after the loop, frame_count is the number of frames, the flag is the last sampled answer, and the count is the number of rising edges of the sampled answers |
| TripCounter.CountAtMostSampledPositives | bicycle-trip-counter/app.py:71-75 | the count is at most the number of positive sampled frames |
| TripCounter.OnlySampledFramesMatter | bicycle-trip-counter/app.py:69-70 | answers for unsampled frames do not change the outcome |
| TripCounter.RunFromFrameCount | bicycle-trip-counter/app.py:77 | frame_count rises by exactly one per frame |
| TripCounter.RunFromAppend | bicycle-trip-counter/app.py:64-77 | reading more frames continues from the state reached |
| TripCounter.RunFromMonotone | bicycle-trip-counter/app.py:71-75 | the count never decreases |
| TripCounter.CountMonotone | bicycle-trip-counter/app.py:71-75 | a longer video never counts fewer trips than its prefix |
| TripCounter.PositiveRunCountsOnce | bicycle-trip-counter/app.py:71-75 | a stretch of positive frames adds at most one trip, none if the flag was already set |
| TripCounter.TwoPassesCountTwice | bicycle-trip-counter/app.py:69-75 | positive, negative, positive sampled frames count two trips |
| TripCounter.CountTrips | bicycle-trip-counter/app.py:55-77 | the loop ends in the state Run specifies: one frame per input, the rising edges of the sampled answers as count |

## Left out

- Streamlit UI, file upload, temporary files, OpenCV capture and drawing, the
  generator plumbing of `process_video` and the float progress values: these
  are I/O and presentation. Video frames become inputs: detected boxes per
  frame for the tracker, a tracker output per frame for the segment counter,
  and one classifier answer per frame for the trip counter.
- Model loading and inference (`load_detection_model`, `load_model`,
  `detect_bicycles`, `predict_cyclist`): these are foreign libraries with float
  confidences. `predict_cyclist` can also return `None` when no model is
  loaded, but the loop only runs with a model, so that case is not modelled.
- `src/tracker.py` is not part of this model. The segment counter takes its
  per-frame output as an id -> centroid map, and nothing is assumed about its
  gating by distance.
- `check_setup.py` only tries imports and prints the results.
- TrackerModel.Distances: the Euclidean norm (`np.linalg.norm`) is replaced by
  the squared integer distance. The square root is monotone, so the row order,
  the argmins and therefore the matching are the same; float rounding is not
  modelled.
- Ranking.ArgSort: numpy's default argsort is not stable. The model breaks ties
  by row index, which is one of the orders numpy may return; other tie orders
  are not covered.
- TrackerModel.CentroidTracker.RegisterColumns: Python iterates the set
  `unused_cols` in an implementation-defined order. The model registers the
  columns in ascending order, and the ids given to particular columns depend
  on that choice. The ageing of `unused_rows` does not depend on order, and
  the model picks rows in any order.
- TrackerModel.CentroidTracker.Deregister: a missing id raises `KeyError` in
  Python. The model requires the id to be present; every call in `update`
  meets this.
- TrackerModel.UnmatchedRowsAged: it is stated only for rows whose id is live
  in both tables. Every row of the ordered id list meets this (IdsEnumerate).
- Tracker centroids hold integer coordinates of any sign. numpy's `dtype="int"`
  64-bit wrap-around is not modelled.
