/**
  The per-frame counting body shared by the two video pipelines: every live
  track's centroid is appended to a bounded trajectory (`deque(maxlen=30)`),
  and a track is counted once, the first time its last step crosses the
  counting line. app.py counts crossings of the horizontal line y = h // 2;
  src/video_processing.py counts intersections of the last step with an
  arbitrary segment.
 */
module LineCounting {
  import opened Geometry
  import opened TrackerModel

  /** `deque(maxlen=30)`. */
  const PathCapacity := 30

  /**
    `path.append(c)` on a deque bounded by PathCapacity: when the deque is
    full its oldest element is dropped.
   */
  function Append(path: seq<Point>, c: Point): (r: seq<Point>)
    ensures |r| == Min(|path| + 1, PathCapacity)
    ensures |r| > 0 && r[|r| - 1] == c
  {
    if |path| < PathCapacity then path + [c]
    else path[|path| - PathCapacity + 1..] + [c]
  }

  /** The most recent PathCapacity elements of a history, oldest first. */
  function Recent(h: seq<Point>): (r: seq<Point>)
    ensures |r| == Min(|h|, PathCapacity)
  {
    h[|h| - Min(|h|, PathCapacity)..]
  }

  /** The deque appended after every sighting holds exactly the most recent sightings. */
  lemma AppendRecent(h: seq<Point>, c: Point)
    ensures Append(Recent(h), c) == Recent(h + [c])
  {
    var r := Recent(h);
    var n := |h| + 1;
    if |h| >= PathCapacity {
      assert r[|r| - PathCapacity + 1..] + [c] == (h + [c])[n - PathCapacity..];
    } else {
      assert r == h;
    }
  }

  /** The counting line: app.py's horizontal threshold, or src/video_processing.py's segment. */
  datatype CountingLine = Horizontal(lineY: int) | Segment(p1: Point, p2: Point)

  /** The step prev -> cur crosses the line. */
  predicate Crosses(line: CountingLine, prev: Point, cur: Point)
  {
    match line
    case Horizontal(y) => (prev.y < y && cur.y >= y) || (prev.y > y && cur.y <= y)
    case Segment(p1, p2) => DoIntersect(prev, cur, p1, p2)
  }

  /** `tracked_paths`, `counted_ids` and `bicycle_count`. */
  datatype Counter = Counter(paths: map<nat, seq<Point>>, counted: set<nat>, count: int)

  /** The counter before the first frame. */
  const Start := Counter(map[], {}, 0)

  /**
    The counter's invariant: the count is the number of counted ids, only ids
    with a trajectory are counted, and every trajectory holds between 1 and
    PathCapacity points.
   */
  predicate Consistent(s: Counter)
  {
    s.count == |s.counted| && s.counted <= s.paths.Keys &&
    forall id :: id in s.paths ==> 0 < |s.paths[id]| <= PathCapacity
  }

  /** id's trajectory once c is appended (a fresh deque for a new id). */
  function PathAfter(s: Counter, id: nat, c: Point): seq<Point>
  {
    Append(if id in s.paths then s.paths[id] else [], c)
  }

  /** id is counted on this sighting: its trajectory has a previous point, it is not yet counted and its last step crosses. */
  predicate CountsAt(line: CountingLine, s: Counter, id: nat, c: Point)
  {
    var p := PathAfter(s, id, c);
    |p| > 1 && id !in s.counted && Crosses(line, p[|p| - 2], c)
  }

  /** The ids a frame's objects add to `counted_ids`. */
  function NewlyCounted(line: CountingLine, s: Counter, objects: map<nat, Point>): set<nat>
  {
    set id | id in objects && CountsAt(line, s, id, objects[id])
  }

  /** The trajectories after a frame: each listed id's trajectory extended by its centroid. */
  function FramePaths(s: Counter, objects: map<nat, Point>): map<nat, seq<Point>>
  {
    map id | id in s.paths.Keys + objects.Keys ::
      if id in objects then PathAfter(s, id, objects[id]) else s.paths[id]
  }

  /**
    One pass of the counting body over a frame's objects. Every id's work
    touches only that id's trajectory and membership, so the result does not
    depend on the order in which the dictionary is walked.
   */
  function Frame(line: CountingLine, s: Counter, objects: map<nat, Point>): Counter
  {
    Counter(
      FramePaths(s, objects),
      s.counted + NewlyCounted(line, s, objects),
      s.count + |NewlyCounted(line, s, objects)|)
  }

  /** The objects of ids in done only. */
  function Restrict(objects: map<nat, Point>, done: set<nat>): map<nat, Point>
  {
    map id | id in objects && id in done :: objects[id]
  }

  lemma RestrictStep(objects: map<nat, Point>, done: set<nat>, id: nat)
    requires id in objects && id !in done
    ensures id !in Restrict(objects, done)
    ensures Restrict(objects, done + {id}) == Restrict(objects, done)[id := objects[id]]
  {
  }

  /** One more id adds itself to the newly counted ids exactly when it is counted. */
  lemma NewlyStep(line: CountingLine, s: Counter, objects: map<nat, Point>, id: nat, c: Point)
    requires id !in objects
    ensures NewlyCounted(line, s, objects[id := c]) ==
      NewlyCounted(line, s, objects) + if CountsAt(line, s, id, c) then {id} else {}
  {
  }

  /** One more id replaces only its own trajectory. */
  lemma PathsStep(s: Counter, objects: map<nat, Point>, id: nat, c: Point)
    ensures FramePaths(s, objects[id := c]) == FramePaths(s, objects)[id := PathAfter(s, id, c)]
  {
  }

  /** Before its own turn, an id sees the counter exactly as the frame found it. */
  lemma NotYetSeen(line: CountingLine, s: Counter, objects: map<nat, Point>, id: nat, c: Point)
    requires id !in objects
    ensures PathAfter(Frame(line, s, objects), id, c) == PathAfter(s, id, c)
    ensures CountsAt(line, Frame(line, s, objects), id, c) == CountsAt(line, s, id, c)
  {
    assert id !in NewlyCounted(line, s, objects);
  }

  /** Handling one more id of the frame extends its trajectory only. */
  lemma FrameStepPaths(line: CountingLine, s: Counter, objects: map<nat, Point>, id: nat, c: Point)
    requires id !in objects
    ensures Frame(line, s, objects[id := c]).paths ==
      Frame(line, s, objects).paths[id := PathAfter(Frame(line, s, objects), id, c)]
  {
    NotYetSeen(line, s, objects, id, c);
    PathsStep(s, objects, id, c);
  }

  /** The number of newly counted ids grows by one exactly when the new id is counted. */
  lemma NewlyCountStep(line: CountingLine, s: Counter, objects: map<nat, Point>, id: nat, c: Point)
    requires id !in objects
    ensures |NewlyCounted(line, s, objects[id := c])| ==
      |NewlyCounted(line, s, objects)| + if CountsAt(line, s, id, c) then 1 else 0
  {
    NewlyStep(line, s, objects, id, c);
    assert id !in NewlyCounted(line, s, objects);
  }

  /** Handling one more id of the frame counts it exactly when CountsAt holds for it. */
  lemma FrameStepCounted(line: CountingLine, s: Counter, objects: map<nat, Point>, id: nat, c: Point)
    requires id !in objects
    ensures Frame(line, s, objects[id := c]).counted ==
      Frame(line, s, objects).counted + if CountsAt(line, Frame(line, s, objects), id, c) then {id} else {}
  {
    NotYetSeen(line, s, objects, id, c);
    NewlyStep(line, s, objects, id, c);
  }

  /** ... and the count then goes up by one. */
  lemma FrameStepCount(line: CountingLine, s: Counter, objects: map<nat, Point>, id: nat, c: Point)
    requires id !in objects
    ensures Frame(line, s, objects[id := c]).count ==
      Frame(line, s, objects).count + if CountsAt(line, Frame(line, s, objects), id, c) then 1 else 0
  {
    NotYetSeen(line, s, objects, id, c);
    NewlyCountStep(line, s, objects, id, c);
  }

  lemma RestrictNothing(objects: map<nat, Point>)
    ensures Restrict(objects, {}) == map[]
  {
  }

  lemma RestrictAll(objects: map<nat, Point>)
    ensures Restrict(objects, objects.Keys) == objects
  {
  }

  lemma FrameOfNothing(line: CountingLine, s: Counter)
    ensures Frame(line, s, map[]) == s
  {
    assert Frame(line, s, map[]).paths == s.paths;
    assert NewlyCounted(line, s, map[]) == {};
  }

  /** One sighting of id at c: its trajectory grows, and it is counted when CountsAt says so. */
  function Observe(line: CountingLine, s: Counter, id: nat, c: Point): Counter
  {
    var p := PathAfter(s, id, c);
    if CountsAt(line, s, id, c) then Counter(s.paths[id := p], s.counted + {id}, s.count + 1)
    else Counter(s.paths[id := p], s.counted, s.count)
  }

  /** A frame's pass is its sightings one after another, in any order. */
  lemma FrameObserve(line: CountingLine, s: Counter, objects: map<nat, Point>, id: nat, c: Point)
    requires id !in objects
    ensures Frame(line, s, objects[id := c]) == Observe(line, Frame(line, s, objects), id, c)
  {
    FrameStepPaths(line, s, objects, id, c);
    FrameStepCounted(line, s, objects, id, c);
    FrameStepCount(line, s, objects, id, c);
  }

  /** Taking one more id of the frame into account is one more sighting. */
  lemma FrameRestrictStep(line: CountingLine, s: Counter, objects: map<nat, Point>, done: set<nat>, id: nat)
    requires id in objects && id !in done
    ensures Frame(line, s, Restrict(objects, done + {id})) ==
      Observe(line, Frame(line, s, Restrict(objects, done)), id, objects[id])
  {
    RestrictStep(objects, done, id);
    FrameObserve(line, s, Restrict(objects, done), id, objects[id]);
  }

  /** Lines 163-184 of app.py for one track. */
  method SightHorizontal(lineY: int, trackedPaths: map<nat, seq<Point>>, countedIds: set<nat>,
                         bicycleCount: int, objectId: nat, centroid: Point)
    returns (paths: map<nat, seq<Point>>, counted: set<nat>, count: int)
    ensures Counter(paths, counted, count) ==
      Observe(Horizontal(lineY), Counter(trackedPaths, countedIds, bicycleCount), objectId, centroid)
  {
    paths, counted, count := trackedPaths, countedIds, bicycleCount;
    if objectId !in paths {
      paths := paths[objectId := []];
    }
    paths := paths[objectId := Append(paths[objectId], centroid)];
    var path := paths[objectId];
    if |path| > 1 {
      var prev := path[|path| - 2];
      if prev.y < lineY && centroid.y >= lineY && objectId !in counted {
        count := count + 1;
        counted := counted + {objectId};
      } else if prev.y > lineY && centroid.y <= lineY && objectId !in counted {
        count := count + 1;
        counted := counted + {objectId};
      }
    }
  }

  /** Lines 122-144 of src/video_processing.py for one track. */
  method SightSegment(p1: Point, p2: Point, trackedPaths: map<nat, seq<Point>>, countedIds: set<nat>,
                      bicycleCount: int, objectId: nat, centroid: Point)
    returns (paths: map<nat, seq<Point>>, counted: set<nat>, count: int)
    ensures Counter(paths, counted, count) ==
      Observe(Segment(p1, p2), Counter(trackedPaths, countedIds, bicycleCount), objectId, centroid)
  {
    paths, counted, count := trackedPaths, countedIds, bicycleCount;
    if objectId !in paths {
      paths := paths[objectId := []];
    }
    paths := paths[objectId := Append(paths[objectId], centroid)];
    var path := paths[objectId];
    if |path| > 1 {
      var prev := path[|path| - 2];
      if objectId !in counted && DoIntersect(prev, centroid, p1, p2) {
        count := count + 1;
        counted := counted + {objectId};
      }
    }
  }

  /** One turn of the loop: the sighting of objectId, one more id of the frame done. */
  method HorizontalTurn(lineY: int, ghost s0: Counter, objects: map<nat, Point>, ghost done: set<nat>,
                 paths: map<nat, seq<Point>>, counted: set<nat>, count: int, objectId: nat)
    returns (pathsAfter: map<nat, seq<Point>>, countedAfter: set<nat>, countAfter: int)
    requires objectId in objects && objectId !in done
    requires Counter(paths, counted, count) == Frame(Horizontal(lineY), s0, Restrict(objects, done))
    ensures Counter(pathsAfter, countedAfter, countAfter) == Frame(Horizontal(lineY), s0, Restrict(objects, done + {objectId}))
  {
    FrameRestrictStep(Horizontal(lineY), s0, objects, done, objectId);
    pathsAfter, countedAfter, countAfter := SightHorizontal(lineY, paths, counted, count, objectId, objects[objectId]);
  }

  /**
    The counting body of app.py (lines 161-184) for one frame: each live
    track's centroid is appended to its trajectory, and a track not yet
    counted whose last step goes from above the line to on or below it, or
    from below to on or above it, is counted.
   */
  method CountHorizontal(lineY: int, trackedPaths: map<nat, seq<Point>>, countedIds: set<nat>,
                         bicycleCount: int, objects: map<nat, Point>)
    returns (paths: map<nat, seq<Point>>, counted: set<nat>, count: int)
    ensures Counter(paths, counted, count) ==
      Frame(Horizontal(lineY), Counter(trackedPaths, countedIds, bicycleCount), objects)
  {
    ghost var s0 := Counter(trackedPaths, countedIds, bicycleCount);
    paths, counted, count := trackedPaths, countedIds, bicycleCount;
    var remaining := objects.Keys;
    ghost var done: set<nat> := {};
    RestrictNothing(objects);
    FrameOfNothing(Horizontal(lineY), s0);
    while remaining != {}
      invariant remaining * done == {} && remaining + done == objects.Keys
      invariant Counter(paths, counted, count) == Frame(Horizontal(lineY), s0, Restrict(objects, done))
      decreases |remaining|
    {
      var objectId :| objectId in remaining;
      paths, counted, count := HorizontalTurn(lineY, s0, objects, done, paths, counted, count, objectId);
      remaining := remaining - {objectId};
      done := done + {objectId};
    }
    RestrictAll(objects);
  }

  /** One turn of the loop: the sighting of objectId, one more id of the frame done. */
  method SegmentTurn(p1: Point, p2: Point, ghost s0: Counter, objects: map<nat, Point>, ghost done: set<nat>,
                 paths: map<nat, seq<Point>>, counted: set<nat>, count: int, objectId: nat)
    returns (pathsAfter: map<nat, seq<Point>>, countedAfter: set<nat>, countAfter: int)
    requires objectId in objects && objectId !in done
    requires Counter(paths, counted, count) == Frame(Segment(p1, p2), s0, Restrict(objects, done))
    ensures Counter(pathsAfter, countedAfter, countAfter) == Frame(Segment(p1, p2), s0, Restrict(objects, done + {objectId}))
  {
    FrameRestrictStep(Segment(p1, p2), s0, objects, done, objectId);
    pathsAfter, countedAfter, countAfter := SightSegment(p1, p2, paths, counted, count, objectId, objects[objectId]);
  }

  /**
    The counting body of `process_video` (src/video_processing.py lines
    118-144) for one frame: as CountHorizontal, but a track is counted when
    its last step intersects the segment p1-p2.
   */
  method CountSegment(p1: Point, p2: Point, trackedPaths: map<nat, seq<Point>>, countedIds: set<nat>,
                      bicycleCount: int, objects: map<nat, Point>)
    returns (paths: map<nat, seq<Point>>, counted: set<nat>, count: int)
    ensures Counter(paths, counted, count) ==
      Frame(Segment(p1, p2), Counter(trackedPaths, countedIds, bicycleCount), objects)
  {
    ghost var s0 := Counter(trackedPaths, countedIds, bicycleCount);
    paths, counted, count := trackedPaths, countedIds, bicycleCount;
    var remaining := objects.Keys;
    ghost var done: set<nat> := {};
    RestrictNothing(objects);
    FrameOfNothing(Segment(p1, p2), s0);
    while remaining != {}
      invariant remaining * done == {} && remaining + done == objects.Keys
      invariant Counter(paths, counted, count) == Frame(Segment(p1, p2), s0, Restrict(objects, done))
      decreases |remaining|
    {
      var objectId :| objectId in remaining;
      paths, counted, count := SegmentTurn(p1, p2, s0, objects, done, paths, counted, count, objectId);
      remaining := remaining - {objectId};
      done := done + {objectId};
    }
    RestrictAll(objects);
  }

  // ---------------------------------------------------------------------------
  // properties of one frame

  /** Appending to a non-empty trajectory keeps its last point as the one before the new one. */
  lemma AppendKeepsPrevious(path: seq<Point>, c: Point)
    requires 0 < |path| <= PathCapacity
    ensures var p := Append(path, c); |p| > 1 && p[|p| - 2] == path[|path| - 1]
  {
  }

  /** A frame keeps the counter consistent and only ever adds counted ids. */
  lemma FrameConsistent(line: CountingLine, s: Counter, objects: map<nat, Point>)
    requires Consistent(s)
    ensures Consistent(Frame(line, s, objects))
    ensures s.counted <= Frame(line, s, objects).counted
    ensures s.count <= Frame(line, s, objects).count
  {
    var n := NewlyCounted(line, s, objects);
    var paths := FramePaths(s, objects);
    forall id | id in paths
      ensures 0 < |paths[id]| <= PathCapacity
    {
      if id in objects {
        assert paths[id] == PathAfter(s, id, objects[id]);
      }
    }
    assert n <= paths.Keys;
    assert n * s.counted == {};
    assert |s.counted + n| == |s.counted| + |n|;
  }

  /**
    A frame counts id exactly when id is listed in it, was not counted before,
    already had a trajectory, and the step from the trajectory's last point to
    the new centroid crosses the line. In particular a track is never counted
    on its first sighting.
   */
  lemma FrameCounts(line: CountingLine, s: Counter, objects: map<nat, Point>, id: nat)
    requires Consistent(s)
    ensures id in Frame(line, s, objects).counted <==>
      id in s.counted ||
      (id in objects && id in s.paths && Crosses(line, s.paths[id][|s.paths[id]| - 1], objects[id]))
  {
    if id in objects && id !in s.counted {
      if id in s.paths {
        AppendKeepsPrevious(s.paths[id], objects[id]);
      }
    }
  }

  /** In app.py a step that starts on the line is never counted. */
  lemma StartOnLineNeverCrosses(lineY: int, prev: Point, cur: Point)
    requires prev.y == lineY
    ensures !Crosses(Horizontal(lineY), prev, cur)
  {
  }

  /** In app.py a track that did not move is never counted. */
  lemma StillNeverCrosses(lineY: int, c: Point)
    ensures !Crosses(Horizontal(lineY), c, c)
  {
  }

  /** Off the line at both ends, the horizontal test does not depend on the direction of travel. */
  lemma HorizontalReversible(lineY: int, prev: Point, cur: Point)
    requires prev.y != lineY && cur.y != lineY
    ensures Crosses(Horizontal(lineY), prev, cur) == Crosses(Horizontal(lineY), cur, prev)
  {
  }

  // ---------------------------------------------------------------------------
  // a whole video

  /** The counter after the frames' objects, frame by frame. */
  function Run(line: CountingLine, s: Counter, frames: seq<map<nat, Point>>): Counter
    decreases |frames|
  {
    if frames == [] then s
    else Frame(line, Run(line, s, frames[..|frames| - 1]), frames[|frames| - 1])
  }

  /** The run extended by one frame is one more pass of the counting body. */
  lemma RunSnoc(line: CountingLine, s: Counter, frames: seq<map<nat, Point>>, objects: map<nat, Point>)
    ensures Run(line, s, frames + [objects]) == Frame(line, Run(line, s, frames), objects)
  {
    assert (frames + [objects])[..|frames|] == frames;
  }

  /** The run over one more frame is one more pass of the counting body. */
  lemma RunPrefix(line: CountingLine, s: Counter, frames: seq<map<nat, Point>>, i: nat)
    requires i < |frames|
    ensures Run(line, s, frames[..i + 1]) == Frame(line, Run(line, s, frames[..i]), frames[i])
  {
    assert frames[..i + 1][..i] == frames[..i];
  }

  /**
    Over any run of frames the counter stays consistent: the count is the
    number of distinct counted ids, each counted once, and only tracks that
    were seen are counted.
   */
  lemma {:induction false} RunConsistent(line: CountingLine, s: Counter, frames: seq<map<nat, Point>>)
    requires Consistent(s)
    ensures Consistent(Run(line, s, frames))
    ensures s.counted <= Run(line, s, frames).counted
    decreases |frames|
  {
    if frames != [] {
      var n := |frames| - 1;
      RunConsistent(line, s, frames[..n]);
      FrameConsistent(line, Run(line, s, frames[..n]), frames[n]);
    }
  }

  /** More frames never lower the count and never uncount an id. */
  lemma {:induction false} RunMonotone(line: CountingLine, s: Counter, frames: seq<map<nat, Point>>,
                                       more: seq<map<nat, Point>>)
    requires Consistent(s)
    ensures Run(line, s, frames).count <= Run(line, s, frames + more).count
    ensures Run(line, s, frames).counted <= Run(line, s, frames + more).counted
    decreases |more|
  {
    if more == [] {
      assert frames + more == frames;
    } else {
      var n := |more| - 1;
      RunMonotone(line, s, frames, more[..n]);
      assert more == more[..n] + [more[n]];
      assert frames + more == (frames + more[..n]) + [more[n]];
      RunSnoc(line, s, frames + more[..n], more[n]);
      RunConsistent(line, s, frames + more[..n]);
      FrameConsistent(line, Run(line, s, frames + more[..n]), more[n]);
    }
  }

  /** The centroids of id in the frames that list it, in frame order. */
  function History(frames: seq<map<nat, Point>>, id: nat): seq<Point>
    decreases |frames|
  {
    if frames == [] then []
    else
      var n := |frames| - 1;
      History(frames[..n], id) + if id in frames[n] then [frames[n][id]] else []
  }

  /**
    Starting from no trajectories, a run keeps a trajectory for exactly the ids
    that some frame listed, and that trajectory is the id's most recent
    PathCapacity centroids in arrival order.
   */
  lemma {:induction false} RunPaths(line: CountingLine, frames: seq<map<nat, Point>>, id: nat)
    ensures id in Run(line, Start, frames).paths <==> |History(frames, id)| > 0
    ensures id in Run(line, Start, frames).paths ==>
      Run(line, Start, frames).paths[id] == Recent(History(frames, id))
    decreases |frames|
  {
    if frames != [] {
      var n := |frames| - 1;
      RunPaths(line, frames[..n], id);
      var before := Run(line, Start, frames[..n]);
      var h := History(frames[..n], id);
      if id in frames[n] {
        var c := frames[n][id];
        AppendRecent(h, c);
        if id !in before.paths {
          assert h == [];
          assert Recent(h) == [];
        }
      }
    }
  }

  // ---------------------------------------------------------------------------
  // the two frame loops

  /** The tracker's objects after each update of a video's detections, frame by frame. */
  function TrackedObjects(t: Tracks, maxDisappeared: int, detections: seq<seq<Box>>): (r: seq<map<nat, Point>>)
    requires WellFormed(t, maxDisappeared)
    ensures |r| == |detections|
    decreases |detections|
  {
    if detections == [] then []
    else
      var n := |detections| - 1;
      TrackedObjects(t, maxDisappeared, detections[..n]) + [Tracked(t, maxDisappeared, detections).objects]
  }

  /** The tracker's table after a video's detections. */
  function Tracked(t: Tracks, maxDisappeared: int, detections: seq<seq<Box>>): (r: Tracks)
    requires WellFormed(t, maxDisappeared)
    ensures WellFormed(r, maxDisappeared)
    decreases |detections|
  {
    if detections == [] then t
    else
      var n := |detections| - 1;
      var u := Tracked(t, maxDisappeared, detections[..n]);
      UpdateWellFormed(u, maxDisappeared, detections[n]);
      UpdateSpec(u, maxDisappeared, detections[n])
  }

  /** One more frame of detections is one more update. */
  lemma TrackedPrefix(t: Tracks, maxDisappeared: int, detections: seq<seq<Box>>, i: nat)
    requires WellFormed(t, maxDisappeared) && i < |detections|
    ensures Tracked(t, maxDisappeared, detections[..i + 1]) ==
      UpdateSpec(Tracked(t, maxDisappeared, detections[..i]), maxDisappeared, detections[i])
    ensures TrackedObjects(t, maxDisappeared, detections[..i + 1]) ==
      TrackedObjects(t, maxDisappeared, detections[..i]) + [Tracked(t, maxDisappeared, detections[..i + 1]).objects]
  {
    assert detections[..i + 1][..i] == detections[..i];
  }

  /** The empty table a new tracker starts with. */
  const NoTracks := Tracks(map[], map[], 0)

  /**
    app.py's frame loop (lines 144-184) over a video's detections: a fresh
    tracker with the default patience updates on each frame's boxes, and the
    horizontal counting body runs on its objects with the line at half the
    frame height. The count is the one the counting run over the tracker's
    outputs gives.
   */
  method CountCyclists(frameHeight: nat, detections: seq<seq<Box>>) returns (bicycleCount: int)
    ensures bicycleCount ==
      Run(Horizontal(frameHeight / 2), Start, TrackedObjects(NoTracks, DefaultMaxDisappeared, detections)).count
  {
    var lineY := frameHeight / 2;
    var tracker := new CentroidTracker(DefaultMaxDisappeared);
    var trackedPaths: map<nat, seq<Point>> := map[];
    var countedIds: set<nat> := {};
    bicycleCount := 0;
    for i := 0 to |detections|
      invariant tracker.Valid() && tracker.maxDisappeared == DefaultMaxDisappeared
      invariant tracker.State() == Tracked(NoTracks, DefaultMaxDisappeared, detections[..i])
      invariant Counter(trackedPaths, countedIds, bicycleCount) ==
        Run(Horizontal(lineY), Start, TrackedObjects(NoTracks, DefaultMaxDisappeared, detections[..i]))
    {
      TrackedPrefix(NoTracks, DefaultMaxDisappeared, detections, i);
      var objects := tracker.Update(detections[i]);
      RunSnoc(Horizontal(lineY), Start, TrackedObjects(NoTracks, DefaultMaxDisappeared, detections[..i]), objects);
      trackedPaths, countedIds, bicycleCount := CountHorizontal(lineY, trackedPaths, countedIds, bicycleCount, objects);
    }
    assert detections[..|detections|] == detections;
  }

  /**
    `process_video`'s frame loop (src/video_processing.py lines 105-144) over
    the objects its tracker reports on each frame, counting against the
    segment p1-p2.
   */
  method CountCrossings(p1: Point, p2: Point, frames: seq<map<nat, Point>>) returns (bicycleCount: int)
    ensures bicycleCount == Run(Segment(p1, p2), Start, frames).count
  {
    var trackedPaths: map<nat, seq<Point>> := map[];
    var countedIds: set<nat> := {};
    bicycleCount := 0;
    for i := 0 to |frames|
      invariant Counter(trackedPaths, countedIds, bicycleCount) == Run(Segment(p1, p2), Start, frames[..i])
    {
      RunPrefix(Segment(p1, p2), Start, frames, i);
      trackedPaths, countedIds, bicycleCount := CountSegment(p1, p2, trackedPaths, countedIds, bicycleCount, frames[i]);
    }
    assert frames[..|frames|] == frames;
  }
}
