/**
  The centroid tracker of app.py: a table of live tracks (id -> centroid and
  id -> consecutive-miss count) that each frame's detection boxes update by
  greedy nearest-centroid association.

  The first half of the module describes one update as functions on a value
  `Tracks`; the class `CentroidTracker` at the end performs the same update
  step by step on its fields, and its methods are proved to produce exactly
  that value.
 */
module TrackerModel {
  import opened Geometry
  import opened Ranking

  /** Default patience (`max_disappeared=50`). */
  const DefaultMaxDisappeared := 50

  /** A detection box (startX, startY, endX, endY). */
  datatype Box = Box(startX: int, startY: int, endX: int, endY: int)

  /** `int(s / 2.0)`: the half of s, truncated toward zero. */
  function HalfTowardZero(s: int): (h: int)
    ensures s >= 0 ==> 0 <= s - 2 * h <= 1
    ensures s < 0 ==> 0 <= 2 * h - s <= 1
  {
    if s >= 0 then s / 2 else -((-s) / 2)
  }

  /** The truncated midpoint of a box's two corners. */
  function Centroid(b: Box): Point
  {
    Point(HalfTowardZero(b.startX + b.endX), HalfTowardZero(b.startY + b.endY))
  }

  function Centroids(rects: seq<Box>): seq<Point>
  {
    seq(|rects|, i requires 0 <= i < |rects| => Centroid(rects[i]))
  }

  /** Squared Euclidean distance; it orders pairs exactly as the distance does. */
  function SqDist(a: Point, b: Point): int
  {
    (a.x - b.x) * (a.x - b.x) + (a.y - b.y) * (a.y - b.y)
  }

  /** The tracker's table: `objects`, `disappeared` and `next_object_id`. */
  datatype Tracks = Tracks(objects: map<nat, Point>, disappeared: map<nat, int>, nextId: nat)

  /** The largest miss count a live track can have. */
  function Patience(maxDisappeared: int): nat
  {
    if maxDisappeared < 0 then 0 else maxDisappeared
  }

  /**
    The table's invariant: both dictionaries have the same ids, every id was
    issued before (is below `next_object_id`), and no live track has missed
    more frames than the patience allows.
   */
  predicate WellFormed(t: Tracks, maxDisappeared: int)
  {
    t.objects.Keys == t.disappeared.Keys &&
    (forall id :: id in t.objects ==> id < t.nextId) &&
    (forall id :: id in t.disappeared ==> 0 <= t.disappeared[id] <= Patience(maxDisappeared))
  }

  // ---------------------------------------------------------------------------
  // register / deregister

  /** `register(centroid)`. */
  function Registered(t: Tracks, c: Point): Tracks
  {
    Tracks(t.objects[t.nextId := c], t.disappeared[t.nextId := 0], t.nextId + 1)
  }

  /** `deregister(object_id)`. */
  function Deregistered(t: Tracks, id: nat): Tracks
  {
    Tracks(t.objects - {id}, t.disappeared - {id}, t.nextId)
  }

  /** `register` applied to each centroid of cs in turn. */
  function RegisterAll(t: Tracks, cs: seq<Point>): Tracks
    decreases |cs|
  {
    if cs == [] then t else Registered(RegisterAll(t, cs[..|cs| - 1]), cs[|cs| - 1])
  }

  /** Registering cs advances nextId by |cs| and adds exactly the ids nextId .. nextId + |cs| - 1. */
  lemma {:induction false} RegisterAllKeys(t: Tracks, cs: seq<Point>)
    ensures RegisterAll(t, cs).nextId == t.nextId + |cs|
    ensures forall id :: id in RegisterAll(t, cs).objects <==>
      id in t.objects || t.nextId <= id < t.nextId + |cs|
    ensures forall id :: id in RegisterAll(t, cs).disappeared <==>
      id in t.disappeared || t.nextId <= id < t.nextId + |cs|
    decreases |cs|
  {
    if cs != [] {
      RegisterAllKeys(t, cs[..|cs| - 1]);
    }
  }

  /** Registering leaves existing tracks as they were. */
  lemma {:induction false} RegisterAllKeeps(t: Tracks, cs: seq<Point>, id: nat)
    requires id < t.nextId
    ensures id in t.objects ==> id in RegisterAll(t, cs).objects && RegisterAll(t, cs).objects[id] == t.objects[id]
    ensures id in t.disappeared ==>
      id in RegisterAll(t, cs).disappeared && RegisterAll(t, cs).disappeared[id] == t.disappeared[id]
    decreases |cs|
  {
    if cs != [] {
      RegisterAllKeys(t, cs[..|cs| - 1]);
      RegisterAllKeeps(t, cs[..|cs| - 1], id);
    }
  }

  /** Registering cs gives the i-th centroid the id nextId + i and a miss count of 0. */
  lemma {:induction false} RegisterAllNew(t: Tracks, cs: seq<Point>, i: nat)
    requires i < |cs|
    ensures t.nextId + i in RegisterAll(t, cs).objects && RegisterAll(t, cs).objects[t.nextId + i] == cs[i]
    ensures t.nextId + i in RegisterAll(t, cs).disappeared && RegisterAll(t, cs).disappeared[t.nextId + i] == 0
    decreases |cs|
  {
    var n := |cs| - 1;
    RegisterAllKeys(t, cs[..n]);
    if i < n {
      RegisterAllNew(t, cs[..n], i);
      assert cs[..n][i] == cs[i];
    }
  }

  /**
    Registering cs gives the i-th centroid the id nextId + i with miss count 0,
    advances nextId by |cs| and leaves every existing track as it was.
   */
  lemma RegisterAllEffect(t: Tracks, cs: seq<Point>)
    requires forall id :: id in t.objects ==> id < t.nextId
    requires forall id :: id in t.disappeared ==> id < t.nextId
    ensures RegisterAll(t, cs).nextId == t.nextId + |cs|
    ensures forall id :: id in RegisterAll(t, cs).objects <==>
      id in t.objects || t.nextId <= id < t.nextId + |cs|
    ensures forall id :: id in RegisterAll(t, cs).disappeared <==>
      id in t.disappeared || t.nextId <= id < t.nextId + |cs|
    ensures forall id :: id in t.objects ==> RegisterAll(t, cs).objects[id] == t.objects[id]
    ensures forall id :: id in t.disappeared ==> RegisterAll(t, cs).disappeared[id] == t.disappeared[id]
    ensures forall i :: 0 <= i < |cs| ==>
      RegisterAll(t, cs).objects[t.nextId + i] == cs[i] &&
      RegisterAll(t, cs).disappeared[t.nextId + i] == 0
  {
    RegisterAllKeys(t, cs);
    var r := RegisterAll(t, cs);
    forall id | id in t.objects || id in t.disappeared
      ensures id in t.objects ==> r.objects[id] == t.objects[id]
      ensures id in t.disappeared ==> r.disappeared[id] == t.disappeared[id]
    {
      RegisterAllKeeps(t, cs, id);
    }
    forall i | 0 <= i < |cs|
      ensures r.objects[t.nextId + i] == cs[i] && r.disappeared[t.nextId + i] == 0
    {
      RegisterAllNew(t, cs, i);
    }
  }

  /** RegisterAll extended by one centroid is one more `register`. */
  lemma RegisterAllSnoc(t: Tracks, cs: seq<Point>, c: Point)
    ensures RegisterAll(t, cs + [c]) == Registered(RegisterAll(t, cs), c)
  {
    assert (cs + [c])[..|cs|] == cs;
  }

  // ---------------------------------------------------------------------------
  // ageing: one missed frame for a set of ids

  /** Lines 47-49 / 89-91 for one id: count the miss, forget the track past the patience. */
  function AgeOne(t: Tracks, maxDisappeared: int, id: nat): Tracks
    requires id in t.disappeared
  {
    var d := t.disappeared[id] + 1;
    var t1 := t.(disappeared := t.disappeared[id := d]);
    if d > maxDisappeared then Deregistered(t1, id) else t1
  }

  /** A track outlives a missed frame for the ids in missed. */
  predicate Survives(t: Tracks, maxDisappeared: int, missed: set<nat>, id: nat)
  {
    id in t.objects && id in t.disappeared &&
    (id in missed ==> t.disappeared[id] + 1 <= maxDisappeared)
  }

  /**
    Every id in missed counts one more miss and is forgotten when its count
    exceeds the patience; all other tracks are untouched.
   */
  function Aged(t: Tracks, maxDisappeared: int, missed: set<nat>): Tracks
  {
    Tracks(
      map id | id in t.objects && Survives(t, maxDisappeared, missed, id) :: t.objects[id],
      map id | id in t.disappeared && Survives(t, maxDisappeared, missed, id) ::
        if id in missed then t.disappeared[id] + 1 else t.disappeared[id],
      t.nextId)
  }

  /** Ageing one more id, in any order, extends the set of aged ids. */
  lemma AgedStep(t: Tracks, maxDisappeared: int, missed: set<nat>, id: nat)
    requires id !in missed && id in t.objects && id in t.disappeared
    ensures id in Aged(t, maxDisappeared, missed).disappeared
    ensures AgeOne(Aged(t, maxDisappeared, missed), maxDisappeared, id)
         == Aged(t, maxDisappeared, missed + {id})
  {
    var a := Aged(t, maxDisappeared, missed);
    var b := Aged(t, maxDisappeared, missed + {id});
    assert Survives(t, maxDisappeared, missed, id);
    var c := AgeOne(a, maxDisappeared, id);
    assert c.objects == b.objects;
    assert c.disappeared == b.disappeared;
  }

  lemma AgedNothing(t: Tracks, maxDisappeared: int)
    requires t.objects.Keys == t.disappeared.Keys
    ensures Aged(t, maxDisappeared, {}) == t
  {
    var a := Aged(t, maxDisappeared, {});
    assert a.objects == t.objects;
    assert a.disappeared == t.disappeared;
  }

  // ---------------------------------------------------------------------------
  // the ordered id list and the assignment step

  predicate Increasing(s: seq<nat>)
  {
    forall a, b :: 0 <= a < b < |s| ==> s[a] < s[b]
  }

  /** The members of keys below n in ascending order. */
  function KeysBelow(keys: set<nat>, n: nat): (r: seq<nat>)
    ensures Increasing(r)
    ensures forall k :: 0 <= k < |r| ==> r[k] < n
    ensures forall v: nat :: v in r <==> v in keys && v < n
  {
    if n == 0 then []
    else KeysBelow(keys, n - 1) + (if n - 1 in keys then [n - 1] else [])
  }

  /**
    `list(self.objects.keys())`: dictionaries iterate in insertion order, and
    ids are inserted in increasing order and never reinserted, so this is the
    live ids in ascending order.
   */
  function Ids(t: Tracks): seq<nat>
  {
    KeysBelow(t.objects.Keys, t.nextId)
  }

  /** The distance matrix D: one row per track centroid, one column per input. */
  function Distances(cents: seq<Point>, inputs: seq<Point>): (d: seq<seq<int>>)
    ensures |d| == |cents|
    ensures forall i :: 0 <= i < |d| ==> |d[i]| == |inputs|
  {
    seq(|cents|, i requires 0 <= i < |cents| =>
      seq(|inputs|, j requires 0 <= j < |inputs| => SqDist(cents[i], inputs[j])))
  }

  /** `D.min(axis=1)`. */
  function RowMins(d: seq<seq<int>>): (m: seq<int>)
    requires forall i :: 0 <= i < |d| ==> |d[i]| > 0
    ensures |m| == |d|
  {
    seq(|d|, i requires 0 <= i < |d| => RowMin(d[i]))
  }

  /** `D.argmin(axis=1)[rows]`. */
  function Cols(d: seq<seq<int>>, rows: seq<nat>): (c: seq<nat>)
    requires forall k :: 0 <= k < |rows| ==> rows[k] < |d| && |d[rows[k]]| > 0
    ensures |c| == |rows|
    ensures forall k :: 0 <= k < |rows| ==> c[k] < |d[rows[k]]|
  {
    seq(|rows|, k requires 0 <= k < |rows| => ArgMin(d[rows[k]]))
  }

  /**
    The matches the loop over zip(rows, cols) commits, as a map row -> column:
    a pair is taken unless its row or its column was taken before.
   */
  function Greedy(rows: seq<nat>, cols: seq<nat>): map<nat, nat>
    requires |rows| == |cols|
    decreases |rows|
  {
    if rows == [] then map[]
    else
      var n := |rows| - 1;
      var m := Greedy(rows[..n], cols[..n]);
      if rows[n] in m.Keys || cols[n] in m.Values then m else m[rows[n] := cols[n]]
  }

  /** Adding a pair for a new row adds that row and that column. */
  lemma AddPair(m: map<nat, nat>, r: nat, c: nat)
    requires r !in m
    ensures m[r := c].Keys == m.Keys + {r}
    ensures m[r := c].Values == m.Values + {c}
  {
    forall v | v in m.Values ensures v in m[r := c].Values {
      var k :| k in m && m[k] == v;
      assert m[r := c][k] == v;
    }
    assert m[r := c][r] == c;
  }

  /** Greedy extended by one pair is one more iteration of the loop. */
  lemma GreedySnoc(rows: seq<nat>, cols: seq<nat>, k: nat)
    requires |rows| == |cols| && k < |rows|
    ensures Greedy(rows[..k + 1], cols[..k + 1]) ==
      var m := Greedy(rows[..k], cols[..k]);
      if rows[k] in m.Keys || cols[k] in m.Values then m else m[rows[k] := cols[k]]
  {
    assert rows[..k + 1][..k] == rows[..k];
    assert cols[..k + 1][..k] == cols[..k];
  }

  /** A matched row and a matched column come from one pair of the list. */
  lemma {:induction false} GreedyFromPairs(rows: seq<nat>, cols: seq<nat>)
    requires |rows| == |cols|
    ensures forall r :: r in Greedy(rows, cols) ==>
      exists k :: 0 <= k < |rows| && rows[k] == r && cols[k] == Greedy(rows, cols)[r]
  {
    if rows != [] {
      var n := |rows| - 1;
      GreedyFromPairs(rows[..n], cols[..n]);
      var m := Greedy(rows[..n], cols[..n]);
      forall r | r in Greedy(rows, cols)
        ensures exists k :: 0 <= k < |rows| && rows[k] == r && cols[k] == Greedy(rows, cols)[r]
      {
        if r in m && Greedy(rows, cols)[r] == m[r] {
          var k :| 0 <= k < n && rows[..n][k] == r && cols[..n][k] == m[r];
          assert rows[k] == r && cols[k] == m[r];
        } else {
          assert rows[n] == r && cols[n] == Greedy(rows, cols)[r];
        }
      }
    }
  }

  /** The matching is one-to-one: no column is given to two rows. */
  lemma {:induction false} GreedyInjective(rows: seq<nat>, cols: seq<nat>)
    requires |rows| == |cols|
    ensures forall r1, r2 :: r1 in Greedy(rows, cols) && r2 in Greedy(rows, cols) && r1 != r2 ==>
      Greedy(rows, cols)[r1] != Greedy(rows, cols)[r2]
  {
    if rows != [] {
      var n := |rows| - 1;
      GreedyInjective(rows[..n], cols[..n]);
    }
  }

  predicate Distinct(s: seq<nat>)
  {
    forall a, b :: 0 <= a < b < |s| ==> s[a] != s[b]
  }

  /** Rows matched by Greedy are rows of the list. */
  lemma {:induction false} GreedyRowsListed(rows: seq<nat>, cols: seq<nat>, r: nat)
    requires |rows| == |cols| && r in Greedy(rows, cols)
    ensures r in rows
  {
    var n := |rows| - 1;
    if r in Greedy(rows[..n], cols[..n]) {
      GreedyRowsListed(rows[..n], cols[..n], r);
      assert rows[..n] <= rows;
    }
  }

  /**
    With each row listed once, the k-th pair's row is matched exactly when its
    column was still free when the loop reached it, and then it gets that column.
   */
  lemma {:induction false} GreedyDecisionAt(rows: seq<nat>, cols: seq<nat>, k: nat)
    requires |rows| == |cols| && Distinct(rows) && k < |rows|
    ensures rows[k] in Greedy(rows, cols) <==> cols[k] !in Greedy(rows[..k], cols[..k]).Values
    ensures rows[k] in Greedy(rows, cols) ==> Greedy(rows, cols)[rows[k]] == cols[k]
  {
    var n := |rows| - 1;
    var m := Greedy(rows[..n], cols[..n]);
    assert rows[..n] == rows[..|rows| - 1];
    if k == n {
      if rows[n] in m {
        GreedyRowsListed(rows[..n], cols[..n], rows[n]);
        assert false;
      }
    } else {
      assert Distinct(rows[..n]);
      GreedyDecisionAt(rows[..n], cols[..n], k);
      assert rows[..n][k] == rows[k] && cols[..n][k] == cols[k];
      assert rows[..n][..k] == rows[..k] && cols[..n][..k] == cols[..k];
      assert rows[k] != rows[n];
    }
  }

  /** GreedyDecisionAt for every pair of the list. */
  lemma GreedyDecision(rows: seq<nat>, cols: seq<nat>)
    requires |rows| == |cols| && Distinct(rows)
    ensures forall k :: 0 <= k < |rows| ==>
      (rows[k] in Greedy(rows, cols) <==> cols[k] !in Greedy(rows[..k], cols[..k]).Values)
    ensures forall k :: 0 <= k < |rows| && rows[k] in Greedy(rows, cols) ==>
      Greedy(rows, cols)[rows[k]] == cols[k]
  {
    forall k | 0 <= k < |rows|
      ensures rows[k] in Greedy(rows, cols) <==> cols[k] !in Greedy(rows[..k], cols[..k]).Values
      ensures rows[k] in Greedy(rows, cols) ==> Greedy(rows, cols)[rows[k]] == cols[k]
    {
      GreedyDecisionAt(rows, cols, k);
    }
  }

  /** Rows and columns of the matching lie within the pairs' ranges. */
  lemma GreedyBounds(rows: seq<nat>, cols: seq<nat>, nRows: nat, nCols: nat)
    requires |rows| == |cols|
    requires forall k :: 0 <= k < |rows| ==> rows[k] < nRows && cols[k] < nCols
    ensures forall r :: r in Greedy(rows, cols) ==> r < nRows && Greedy(rows, cols)[r] < nCols
  {
    GreedyFromPairs(rows, cols);
  }

  /** The whole assignment step of lines 62-81, as values. */
  datatype Assignment = Assignment(
    ids: seq<nat>, dist: seq<seq<int>>, rows: seq<nat>, cols: seq<nat>, matches: map<nat, nat>)

  function ObjectCentroids(t: Tracks, ids: seq<nat>): (cs: seq<Point>)
    requires forall k :: 0 <= k < |ids| ==> ids[k] in t.objects
    ensures |cs| == |ids|
  {
    seq(|ids|, k requires 0 <= k < |ids| => t.objects[ids[k]])
  }

  function Assign(t: Tracks, inputs: seq<Point>): (a: Assignment)
    requires |inputs| > 0
    ensures |a.dist| == |a.ids| && |a.rows| == |a.cols| == |a.ids|
    ensures forall r :: r in a.matches ==> r < |a.ids| && a.matches[r] < |inputs|
  {
    var ids := Ids(t);
    var d := Distances(ObjectCentroids(t, ids), inputs);
    var rows := ArgSort(RowMins(d));
    var cols := Cols(d, rows);
    GreedyBounds(rows, cols, |ids|, |inputs|);
    Assignment(ids, d, rows, cols, Greedy(rows, cols))
  }

  /** The distinct ids of the given rows. */
  function RowIds(ids: seq<nat>, rowSet: set<nat>): set<nat>
  {
    set r | r in rowSet && r < |ids| :: ids[r]
  }

  /** The position of v in s (its first one). */
  function IndexOf(s: seq<nat>, v: nat): (i: nat)
    requires v in s
    ensures i < |s| && s[i] == v
  {
    if s[0] == v then 0 else 1 + IndexOf(s[1..], v)
  }

  lemma IndexOfDistinct(s: seq<nat>, i: nat)
    requires Distinct(s) && i < |s|
    ensures IndexOf(s, s[i]) == i
  {
  }

  /** Row m-matched track id: it is ids[r] for a row r of the matching. */
  predicate IsMatchedId(ids: seq<nat>, m: map<nat, nat>, id: nat)
  {
    id in ids && IndexOf(ids, id) in m
  }

  /** Each matched row's track takes its input's centroid and a miss count of 0. */
  function Matched(t: Tracks, ids: seq<nat>, inputs: seq<Point>, m: map<nat, nat>): Tracks
    requires forall r :: r in m ==> r < |ids| && m[r] < |inputs|
  {
    Tracks(
      map id | id in t.objects ::
        if IsMatchedId(ids, m, id) then inputs[m[IndexOf(ids, id)]] else t.objects[id],
      map id | id in t.disappeared ::
        if IsMatchedId(ids, m, id) then 0 else t.disappeared[id],
      t.nextId)
  }

  /** Matching one more row updates exactly that row's track. */
  lemma MatchedStep(t: Tracks, ids: seq<nat>, inputs: seq<Point>, m: map<nat, nat>, r: nat, c: nat)
    requires Distinct(ids)
    requires forall r :: r in m ==> r < |ids| && m[r] < |inputs|
    requires r < |ids| && c < |inputs| && r !in m
    requires ids[r] in t.objects && ids[r] in t.disappeared
    ensures Matched(t, ids, inputs, m[r := c]) ==
      var u := Matched(t, ids, inputs, m);
      Tracks(u.objects[ids[r] := inputs[c]], u.disappeared[ids[r] := 0], u.nextId)
  {
    var a := Matched(t, ids, inputs, m[r := c]);
    var u := Matched(t, ids, inputs, m);
    IndexOfDistinct(ids, r);
    forall id | id in ids && id != ids[r]
      ensures IndexOf(ids, id) != r
    {
    }
    assert a.objects == u.objects[ids[r] := inputs[c]];
    assert a.disappeared == u.disappeared[ids[r] := 0];
  }

  /** The matching phase: matched rows updated, every other track as before, no id added. */
  lemma MatchedEffect(t: Tracks, ids: seq<nat>, inputs: seq<Point>, m: map<nat, nat>)
    requires Distinct(ids)
    requires forall r :: r in m ==> r < |ids| && m[r] < |inputs|
    requires forall k :: 0 <= k < |ids| ==> ids[k] in t.objects && ids[k] in t.disappeared
    ensures Matched(t, ids, inputs, m).objects.Keys == t.objects.Keys
    ensures Matched(t, ids, inputs, m).disappeared.Keys == t.disappeared.Keys
    ensures Matched(t, ids, inputs, m).nextId == t.nextId
    ensures forall r :: r in m ==>
      Matched(t, ids, inputs, m).objects[ids[r]] == inputs[m[r]] &&
      Matched(t, ids, inputs, m).disappeared[ids[r]] == 0
    ensures forall r :: 0 <= r < |ids| && r !in m ==>
      Matched(t, ids, inputs, m).objects[ids[r]] == t.objects[ids[r]] &&
      Matched(t, ids, inputs, m).disappeared[ids[r]] == t.disappeared[ids[r]]
    ensures forall id :: id in t.objects && id !in ids ==>
      Matched(t, ids, inputs, m).objects[id] == t.objects[id]
  {
    forall r | 0 <= r < |ids|
      ensures IndexOf(ids, ids[r]) == r
    {
      IndexOfDistinct(ids, r);
    }
  }

  /** The columns below n that no match used (`unused_cols`). */
  function ColumnsLeft(used: set<nat>, n: nat): set<nat>
  {
    set c: nat | c < n && c !in used
  }

  /** The rows below n that no match used (`unused_rows`). */
  function RowsLeft(used: set<nat>, n: nat): set<nat>
  {
    set r: nat | r < n && r !in used
  }

  function Pick(inputs: seq<Point>, idx: seq<nat>): (cs: seq<Point>)
    requires forall k :: 0 <= k < |idx| ==> idx[k] < |inputs|
    ensures |cs| == |idx|
    ensures forall k :: 0 <= k < |idx| ==> cs[k] == inputs[idx[k]]
  {
    seq(|idx|, k requires 0 <= k < |idx| => inputs[idx[k]])
  }

  /** The columns no match used, in ascending order. */
  function UnmatchedColumns(m: map<nat, nat>, n: nat): (cs: seq<nat>)
    ensures Increasing(cs)
    ensures forall k :: 0 <= k < |cs| ==> cs[k] < n
    ensures forall c: nat :: c in cs <==> c < n && c !in m.Values
  {
    KeysBelow(ColumnsLeft(m.Values, n), n)
  }

  /** The unmatched input centroids, in ascending column order. */
  function Unmatched(inputs: seq<Point>, m: map<nat, nat>): seq<Point>
  {
    Pick(inputs, UnmatchedColumns(m, |inputs|))
  }

  // ---------------------------------------------------------------------------
  // one update

  lemma IdsEnumerate(t: Tracks, maxDisappeared: int)
    requires WellFormed(t, maxDisappeared)
    ensures Distinct(Ids(t))
    ensures forall k :: 0 <= k < |Ids(t)| ==> Ids(t)[k] in t.objects && Ids(t)[k] in t.disappeared
    ensures forall id :: id in t.objects <==> id in Ids(t)
  {
  }

  /** `update(rects)` applied to the table t. */
  function UpdateSpec(t: Tracks, maxDisappeared: int, rects: seq<Box>): Tracks
    requires WellFormed(t, maxDisappeared)
  {
    if |rects| == 0 then Aged(t, maxDisappeared, t.disappeared.Keys)
    else
      var inputs := Centroids(rects);
      if |t.objects| == 0 then RegisterAll(t, inputs)
      else
        var a := Assign(t, inputs);
        IdsEnumerate(t, maxDisappeared);
        var tm := Matched(t, a.ids, inputs, a.matches);
        if |a.ids| >= |inputs| then
          Aged(tm, maxDisappeared, RowIds(a.ids, RowsLeft(a.matches.Keys, |a.ids|)))
        else
          RegisterAll(tm, Unmatched(inputs, a.matches))
  }

  // ---------------------------------------------------------------------------
  // properties of one update

  function Below(keys: set<nat>, n: nat): set<nat>
  {
    set v: nat | v in keys && v < n
  }

  lemma BelowStep(keys: set<nat>, n: nat)
    requires n > 0
    ensures n - 1 !in Below(keys, n - 1)
    ensures Below(keys, n) == if n - 1 in keys then Below(keys, n - 1) + {n - 1} else Below(keys, n - 1)
  {
    var prev := Below(keys, n - 1);
    forall v: nat
      ensures v in Below(keys, n) <==> v in (if n - 1 in keys then prev + {n - 1} else prev)
    {
    }
  }

  lemma {:induction false} KeysBelowCount(keys: set<nat>, n: nat)
    ensures |KeysBelow(keys, n)| == |Below(keys, n)|
  {
    if n > 0 {
      KeysBelowCount(keys, n - 1);
      BelowStep(keys, n);
    }
  }

  /** D has one row per live track: `D.shape[0] == len(self.objects)`. */
  lemma IdsCount(t: Tracks, maxDisappeared: int)
    requires WellFormed(t, maxDisappeared)
    ensures |Ids(t)| == |t.objects|
  {
    KeysBelowCount(t.objects.Keys, t.nextId);
    assert Below(t.objects.Keys, t.nextId) == t.objects.Keys;
  }

  lemma AgedWellFormed(t: Tracks, maxDisappeared: int, missed: set<nat>)
    requires WellFormed(t, maxDisappeared)
    ensures WellFormed(Aged(t, maxDisappeared, missed), maxDisappeared)
    ensures Aged(t, maxDisappeared, missed).objects.Keys <= t.objects.Keys
    ensures Aged(t, maxDisappeared, missed).nextId == t.nextId
  {
  }

  lemma RegisterAllWellFormed(t: Tracks, maxDisappeared: int, cs: seq<Point>)
    requires WellFormed(t, maxDisappeared)
    ensures WellFormed(RegisterAll(t, cs), maxDisappeared)
  {
    RegisterAllEffect(t, cs);
  }

  /** The matching case of an update, spelled out. */
  lemma UpdateMatchCase(t: Tracks, maxDisappeared: int, rects: seq<Box>)
    requires WellFormed(t, maxDisappeared) && |rects| > 0 && |t.objects| > 0
    ensures var inputs := Centroids(rects);
      var a := Assign(t, inputs);
      Distinct(a.ids) &&
      UpdateSpec(t, maxDisappeared, rects) ==
        var tm := Matched(t, a.ids, inputs, a.matches);
        if |a.ids| >= |inputs| then
          Aged(tm, maxDisappeared, RowIds(a.ids, RowsLeft(a.matches.Keys, |a.ids|)))
        else
          RegisterAll(tm, Unmatched(inputs, a.matches))
  {
    IdsEnumerate(t, maxDisappeared);
  }

  lemma MatchedWellFormed(t: Tracks, maxDisappeared: int, ids: seq<nat>, inputs: seq<Point>, m: map<nat, nat>)
    requires WellFormed(t, maxDisappeared)
    requires forall r :: r in m ==> r < |ids| && m[r] < |inputs|
    ensures WellFormed(Matched(t, ids, inputs, m), maxDisappeared)
  {
    var tm := Matched(t, ids, inputs, m);
    MatchedKeys(t, ids, inputs, m);
    forall id | id in tm.disappeared
      ensures 0 <= tm.disappeared[id] <= Patience(maxDisappeared)
    {
    }
  }

  /**
    One update keeps the table well formed, never lowers next_object_id, and
    every id it adds is fresh: at least the next_object_id before the update.
   */
  lemma UpdateWellFormed(t: Tracks, maxDisappeared: int, rects: seq<Box>)
    requires WellFormed(t, maxDisappeared)
    ensures WellFormed(UpdateSpec(t, maxDisappeared, rects), maxDisappeared)
    ensures UpdateSpec(t, maxDisappeared, rects).nextId >= t.nextId
    ensures forall id :: id in UpdateSpec(t, maxDisappeared, rects).objects && id !in t.objects ==>
      id >= t.nextId
  {
    if |rects| == 0 {
      AgedWellFormed(t, maxDisappeared, t.disappeared.Keys);
    } else if |t.objects| == 0 {
      RegisterAllWellFormed(t, maxDisappeared, Centroids(rects));
      RegisterAllEffect(t, Centroids(rects));
    } else {
      var inputs := Centroids(rects);
      var a := Assign(t, inputs);
      UpdateMatchCase(t, maxDisappeared, rects);
      MatchedWellFormed(t, maxDisappeared, a.ids, inputs, a.matches);
      MatchedKeys(t, a.ids, inputs, a.matches);
      var tm := Matched(t, a.ids, inputs, a.matches);
      if |a.ids| >= |inputs| {
        AgedWellFormed(tm, maxDisappeared, RowIds(a.ids, RowsLeft(a.matches.Keys, |a.ids|)));
      } else {
        RegisterAllWellFormed(tm, maxDisappeared, Unmatched(inputs, a.matches));
        RegisterAllEffect(tm, Unmatched(inputs, a.matches));
      }
    }
  }

  /**
    An empty frame: every live track counts one more miss, exactly those whose
    count then exceeds the patience are forgotten, survivors keep their
    centroids, and no id is issued.
   */
  lemma UpdateEmptyFrame(t: Tracks, maxDisappeared: int)
    requires WellFormed(t, maxDisappeared)
    ensures UpdateSpec(t, maxDisappeared, []).nextId == t.nextId
    ensures forall id :: id in UpdateSpec(t, maxDisappeared, []).objects <==>
      id in t.objects && t.disappeared[id] + 1 <= maxDisappeared
    ensures forall id :: id in UpdateSpec(t, maxDisappeared, []).objects ==>
      UpdateSpec(t, maxDisappeared, []).objects[id] == t.objects[id] &&
      UpdateSpec(t, maxDisappeared, []).disappeared[id] == t.disappeared[id] + 1
  {
  }

  /** n consecutive updates with no detections. */
  function EmptyFrames(t: Tracks, maxDisappeared: int, n: nat): (r: Tracks)
    requires WellFormed(t, maxDisappeared)
    ensures WellFormed(r, maxDisappeared)
    decreases n
  {
    if n == 0 then t
    else
      UpdateWellFormed(t, maxDisappeared, []);
      EmptyFrames(UpdateSpec(t, maxDisappeared, []), maxDisappeared, n - 1)
  }

  /**
    After n empty frames a track is still live exactly when it was live and
    its miss count plus n is within the patience; it then has counted n more
    misses and kept its centroid.
   */
  lemma {:induction false} EmptyFramesAge(t: Tracks, maxDisappeared: int, n: nat)
    requires WellFormed(t, maxDisappeared)
    decreases n
    ensures EmptyFrames(t, maxDisappeared, n).nextId == t.nextId
    ensures forall id :: id in EmptyFrames(t, maxDisappeared, n).objects <==>
      id in t.objects && (n == 0 || t.disappeared[id] + n <= maxDisappeared)
    ensures forall id :: id in EmptyFrames(t, maxDisappeared, n).objects ==>
      EmptyFrames(t, maxDisappeared, n).objects[id] == t.objects[id] &&
      EmptyFrames(t, maxDisappeared, n).disappeared[id] == t.disappeared[id] + n
  {
    if n > 0 {
      var u := UpdateSpec(t, maxDisappeared, []);
      UpdateEmptyFrame(t, maxDisappeared);
      UpdateWellFormed(t, maxDisappeared, []);
      EmptyFramesAge(u, maxDisappeared, n - 1);
    }
  }

  /** max_disappeared + 1 empty frames (and at least one) leave no track alive. */
  lemma EmptyFramesDrain(t: Tracks, maxDisappeared: int, n: nat)
    requires WellFormed(t, maxDisappeared)
    requires n > 0 && n > maxDisappeared
    ensures EmptyFrames(t, maxDisappeared, n).objects == map[]
    ensures EmptyFrames(t, maxDisappeared, n).disappeared == map[]
  {
    EmptyFramesAge(t, maxDisappeared, n);
  }

  lemma UpdateNoTracks(t: Tracks, maxDisappeared: int, rects: seq<Box>)
    requires WellFormed(t, maxDisappeared) && |t.objects| == 0 && |rects| > 0
    ensures UpdateSpec(t, maxDisappeared, rects) == RegisterAll(t, Centroids(rects))
  {
  }

  /**
    With no live tracks, n boxes become n tracks with the fresh ids
    next_object_id .. next_object_id + n - 1, in box order, each at its box's
    centroid with no misses.
   */
  lemma UpdateFirstFrame(t: Tracks, maxDisappeared: int, rects: seq<Box>)
    requires WellFormed(t, maxDisappeared) && |t.objects| == 0 && |rects| > 0
    ensures UpdateSpec(t, maxDisappeared, rects).nextId == t.nextId + |rects|
    ensures forall id :: id in UpdateSpec(t, maxDisappeared, rects).objects <==>
      t.nextId <= id < t.nextId + |rects|
    ensures UpdateSpec(t, maxDisappeared, rects).disappeared.Keys ==
      UpdateSpec(t, maxDisappeared, rects).objects.Keys
    ensures forall i :: 0 <= i < |rects| ==>
      UpdateSpec(t, maxDisappeared, rects).objects[t.nextId + i] == Centroid(rects[i]) &&
      UpdateSpec(t, maxDisappeared, rects).disappeared[t.nextId + i] == 0
  {
    UpdateNoTracks(t, maxDisappeared, rects);
    assert t.objects.Keys == {} && t.disappeared.Keys == {};
    var cs := Centroids(rects);
    RegisterAllKeys(t, cs);
    var r := RegisterAll(t, cs);
    assert r.disappeared.Keys == r.objects.Keys;
    forall i | 0 <= i < |rects|
      ensures r.objects[t.nextId + i] == Centroid(rects[i]) && r.disappeared[t.nextId + i] == 0
    {
      RegisterAllNew(t, cs, i);
    }
  }

  /** The assignment pairs each track with at most one input and each input with at most one track. */
  lemma AssignmentOneToOne(t: Tracks, inputs: seq<Point>)
    requires |inputs| > 0
    ensures var a := Assign(t, inputs);
      forall r1, r2 :: r1 in a.matches && r2 in a.matches && r1 != r2 ==>
        a.matches[r1] != a.matches[r2]
  {
    var a := Assign(t, inputs);
    GreedyInjective(a.rows, a.cols);
  }

  /** Rows are visited in order of their nearest distance, each row once. */
  lemma AssignmentRowOrder(t: Tracks, inputs: seq<Point>)
    requires |inputs| > 0
    ensures var a := Assign(t, inputs);
      Distinct(a.rows) &&
      (forall r :: 0 <= r < |a.ids| ==> r in a.rows) &&
      forall k1, k2 :: 0 <= k1 < k2 < |a.rows| ==> RowMin(a.dist[a.rows[k1]]) <= RowMin(a.dist[a.rows[k2]])
  {
  }

  /**
    A row is left unmatched exactly when its argmin column was taken by a row
    visited earlier; a matched row gets its own argmin column.
   */
  lemma AssignmentDecision(t: Tracks, inputs: seq<Point>)
    requires |inputs| > 0
    ensures var a := Assign(t, inputs);
      forall k :: 0 <= k < |a.rows| ==>
        a.cols[k] == ArgMin(a.dist[a.rows[k]]) &&
        (a.rows[k] !in a.matches <==> a.cols[k] in Greedy(a.rows[..k], a.cols[..k]).Values)
  {
    var a := Assign(t, inputs);
    AssignmentRowOrder(t, inputs);
    GreedyDecision(a.rows, a.cols);
  }

  /** A matched track is given its row's argmin column. */
  lemma AssignmentTakesArgMin(t: Tracks, inputs: seq<Point>)
    requires |inputs| > 0
    ensures var a := Assign(t, inputs);
      forall r :: r in a.matches ==> r < |a.dist| && a.matches[r] == ArgMin(a.dist[r])
  {
    var a := Assign(t, inputs);
    GreedyFromPairs(a.rows, a.cols);
    forall r | r in a.matches
      ensures r < |a.dist| && a.matches[r] == ArgMin(a.dist[r])
    {
      var k :| 0 <= k < |a.rows| && a.rows[k] == r && a.cols[k] == a.matches[r];
      assert a.cols[k] == ArgMin(a.dist[a.rows[k]]);
    }
  }

  /** A matched track is paired with one of the inputs nearest to it. */
  lemma AssignmentNearest(t: Tracks, maxDisappeared: int, inputs: seq<Point>)
    requires WellFormed(t, maxDisappeared) && |inputs| > 0
    ensures var a := Assign(t, inputs);
      forall r :: r in a.matches ==>
        forall c :: 0 <= c < |inputs| ==>
          SqDist(t.objects[a.ids[r]], inputs[a.matches[r]]) <= SqDist(t.objects[a.ids[r]], inputs[c])
  {
    var a := Assign(t, inputs);
    AssignmentTakesArgMin(t, inputs);
    forall r, c | r in a.matches && 0 <= c < |inputs|
      ensures SqDist(t.objects[a.ids[r]], inputs[a.matches[r]]) <= SqDist(t.objects[a.ids[r]], inputs[c])
    {
      var row := a.dist[r];
      assert row[a.matches[r]] <= row[c];
    }
  }

  lemma RowIdsMember(ids: seq<nat>, rowSet: set<nat>, row: nat)
    requires Distinct(ids) && row < |ids|
    ensures ids[row] in RowIds(ids, rowSet) <==> row in rowSet
  {
  }

  /** Each matched row's track is live at its input's centroid with no misses. */
  predicate MatchedRowsUpdated(r: Tracks, ids: seq<nat>, inputs: seq<Point>, m: map<nat, nat>)
  {
    forall row :: row in m && row < |ids| && m[row] < |inputs| ==>
      ids[row] in r.objects && ids[row] in r.disappeared &&
      r.objects[ids[row]] == inputs[m[row]] && r.disappeared[ids[row]] == 0
  }

  /** Each unmatched row's track counted a miss and survives exactly within the patience. */
  predicate UnmatchedRowsAged(t: Tracks, maxDisappeared: int, r: Tracks, ids: seq<nat>, m: map<nat, nat>)
  {
    forall row :: 0 <= row < |ids| && row !in m && ids[row] in t.objects && ids[row] in t.disappeared ==>
      (ids[row] in r.objects <==> t.disappeared[ids[row]] + 1 <= maxDisappeared) &&
      (ids[row] in r.objects ==>
        ids[row] in r.disappeared &&
        r.objects[ids[row]] == t.objects[ids[row]] &&
        r.disappeared[ids[row]] == t.disappeared[ids[row]] + 1)
  }

  /** Each unmatched row's track is live and exactly as it was. */
  predicate UnmatchedRowsKept(t: Tracks, r: Tracks, ids: seq<nat>, m: map<nat, nat>)
  {
    forall row :: 0 <= row < |ids| && row !in m && ids[row] in t.objects && ids[row] in t.disappeared ==>
      ids[row] in r.objects && ids[row] in r.disappeared &&
      r.objects[ids[row]] == t.objects[ids[row]] &&
      r.disappeared[ids[row]] == t.disappeared[ids[row]]
  }

  /** The j-th of the given columns became the track with id t.nextId + j, with no misses. */
  predicate ColumnsRegistered(t: Tracks, r: Tracks, inputs: seq<Point>, newCols: seq<nat>)
  {
    forall j :: 0 <= j < |newCols| && newCols[j] < |inputs| ==>
      t.nextId + j in r.objects && t.nextId + j in r.disappeared &&
      r.objects[t.nextId + j] == inputs[newCols[j]] && r.disappeared[t.nextId + j] == 0
  }

  /** One row of the matching phase: its track is updated when matched and kept otherwise. */
  lemma MatchedRow(t: Tracks, ids: seq<nat>, inputs: seq<Point>, m: map<nat, nat>, row: nat)
    requires Distinct(ids)
    requires forall r :: r in m ==> r < |ids| && m[r] < |inputs|
    requires row < |ids| && ids[row] in t.objects && ids[row] in t.disappeared
    ensures ids[row] in Matched(t, ids, inputs, m).objects && ids[row] in Matched(t, ids, inputs, m).disappeared
    ensures row in m ==>
      Matched(t, ids, inputs, m).objects[ids[row]] == inputs[m[row]] &&
      Matched(t, ids, inputs, m).disappeared[ids[row]] == 0
    ensures row !in m ==>
      Matched(t, ids, inputs, m).objects[ids[row]] == t.objects[ids[row]] &&
      Matched(t, ids, inputs, m).disappeared[ids[row]] == t.disappeared[ids[row]]
  {
    IndexOfDistinct(ids, row);
  }

  /** One matched row's track is live after ageing, at its input with no misses. */
  lemma AgeAfterMatchRow(t: Tracks, maxDisappeared: int, ids: seq<nat>, inputs: seq<Point>, m: map<nat, nat>, row: nat)
    requires WellFormed(t, maxDisappeared) && Distinct(ids)
    requires forall r :: r in m ==> r < |ids| && m[r] < |inputs|
    requires row in m && ids[row] in t.objects
    ensures var r := Aged(Matched(t, ids, inputs, m), maxDisappeared, RowIds(ids, RowsLeft(m.Keys, |ids|)));
      ids[row] in r.objects && ids[row] in r.disappeared &&
      r.objects[ids[row]] == inputs[m[row]] && r.disappeared[ids[row]] == 0
  {
    var missed := RowIds(ids, RowsLeft(m.Keys, |ids|));
    var tm := Matched(t, ids, inputs, m);
    RowIdsMember(ids, RowsLeft(m.Keys, |ids|), row);
    MatchedRow(t, ids, inputs, m, row);
    assert Survives(tm, maxDisappeared, missed, ids[row]);
  }

  /** After matching and ageing, every matched row's track is live at its input with no misses. */
  lemma AgeAfterMatchMatched(t: Tracks, maxDisappeared: int, ids: seq<nat>, inputs: seq<Point>, m: map<nat, nat>)
    requires WellFormed(t, maxDisappeared) && Distinct(ids)
    requires forall r :: r in m ==> r < |ids| && m[r] < |inputs|
    requires forall k :: 0 <= k < |ids| ==> ids[k] in t.objects
    ensures MatchedRowsUpdated(
      Aged(Matched(t, ids, inputs, m), maxDisappeared, RowIds(ids, RowsLeft(m.Keys, |ids|))), ids, inputs, m)
  {
    forall row | row in m && row < |ids| && m[row] < |inputs|
      ensures var r := Aged(Matched(t, ids, inputs, m), maxDisappeared, RowIds(ids, RowsLeft(m.Keys, |ids|)));
        ids[row] in r.objects && ids[row] in r.disappeared &&
        r.objects[ids[row]] == inputs[m[row]] && r.disappeared[ids[row]] == 0
    {
      AgeAfterMatchRow(t, maxDisappeared, ids, inputs, m, row);
    }
  }

  /** After matching and ageing, every unmatched row's track has counted a miss. */
  lemma AgeAfterMatchUnmatched(t: Tracks, maxDisappeared: int, ids: seq<nat>, inputs: seq<Point>, m: map<nat, nat>)
    requires WellFormed(t, maxDisappeared) && Distinct(ids)
    requires forall r :: r in m ==> r < |ids| && m[r] < |inputs|
    requires forall k :: 0 <= k < |ids| ==> ids[k] in t.objects
    ensures UnmatchedRowsAged(t, maxDisappeared,
      Aged(Matched(t, ids, inputs, m), maxDisappeared, RowIds(ids, RowsLeft(m.Keys, |ids|))), ids, m)
  {
    var missed := RowIds(ids, RowsLeft(m.Keys, |ids|));
    var tm := Matched(t, ids, inputs, m);
    forall row | 0 <= row < |ids| && row !in m && ids[row] in t.objects && ids[row] in t.disappeared
      ensures ids[row] in missed
      ensures ids[row] in tm.objects && ids[row] in tm.disappeared
      ensures tm.objects[ids[row]] == t.objects[ids[row]] && tm.disappeared[ids[row]] == t.disappeared[ids[row]]
    {
      RowIdsMember(ids, RowsLeft(m.Keys, |ids|), row);
      MatchedRow(t, ids, inputs, m, row);
    }
  }

  /** The phase after matching when there are at least as many tracks as inputs. */
  lemma MatchThenAge(t: Tracks, maxDisappeared: int, ids: seq<nat>, inputs: seq<Point>, m: map<nat, nat>)
    requires WellFormed(t, maxDisappeared) && Distinct(ids)
    requires forall r :: r in m ==> r < |ids| && m[r] < |inputs|
    requires forall k :: 0 <= k < |ids| ==> ids[k] in t.objects
    ensures var r := Aged(Matched(t, ids, inputs, m), maxDisappeared, RowIds(ids, RowsLeft(m.Keys, |ids|)));
      r.nextId == t.nextId && r.objects.Keys <= t.objects.Keys && r.disappeared.Keys == r.objects.Keys
    ensures var r := Aged(Matched(t, ids, inputs, m), maxDisappeared, RowIds(ids, RowsLeft(m.Keys, |ids|)));
      MatchedRowsUpdated(r, ids, inputs, m) && UnmatchedRowsAged(t, maxDisappeared, r, ids, m)
  {
    MatchedKeys(t, ids, inputs, m);
    AgeAfterMatchMatched(t, maxDisappeared, ids, inputs, m);
    AgeAfterMatchUnmatched(t, maxDisappeared, ids, inputs, m);
  }

  /** The matching phase changes no id: the key sets and nextId are as before. */
  lemma MatchedKeys(t: Tracks, ids: seq<nat>, inputs: seq<Point>, m: map<nat, nat>)
    requires forall r :: r in m ==> r < |ids| && m[r] < |inputs|
    ensures Matched(t, ids, inputs, m).objects.Keys == t.objects.Keys
    ensures Matched(t, ids, inputs, m).disappeared.Keys == t.disappeared.Keys
    ensures Matched(t, ids, inputs, m).nextId == t.nextId
  {
  }

  /** After matching and registering, the new tracks are the unmatched inputs in column order. */
  lemma RegisterAfterMatchColumns(t: Tracks, maxDisappeared: int, ids: seq<nat>, inputs: seq<Point>, m: map<nat, nat>)
    requires WellFormed(t, maxDisappeared)
    requires forall r :: r in m ==> r < |ids| && m[r] < |inputs|
    ensures ColumnsRegistered(t, RegisterAll(Matched(t, ids, inputs, m), Unmatched(inputs, m)),
      inputs, UnmatchedColumns(m, |inputs|))
  {
    MatchedKeys(t, ids, inputs, m);
    var tm := Matched(t, ids, inputs, m);
    var newCols := UnmatchedColumns(m, |inputs|);
    var cs := Unmatched(inputs, m);
    forall j | 0 <= j < |newCols| && newCols[j] < |inputs|
      ensures t.nextId + j in RegisterAll(tm, cs).objects && RegisterAll(tm, cs).objects[t.nextId + j] == inputs[newCols[j]]
      ensures t.nextId + j in RegisterAll(tm, cs).disappeared && RegisterAll(tm, cs).disappeared[t.nextId + j] == 0
    {
      RegisterAllNew(tm, cs, j);
    }
  }

  /** After matching and registering, every row's track is as the matching left it. */
  lemma RegisterAfterMatchRows(t: Tracks, maxDisappeared: int, ids: seq<nat>, inputs: seq<Point>, m: map<nat, nat>)
    requires WellFormed(t, maxDisappeared) && Distinct(ids)
    requires forall r :: r in m ==> r < |ids| && m[r] < |inputs|
    requires forall k :: 0 <= k < |ids| ==> ids[k] in t.objects
    ensures MatchedRowsUpdated(RegisterAll(Matched(t, ids, inputs, m), Unmatched(inputs, m)), ids, inputs, m)
    ensures UnmatchedRowsKept(t, RegisterAll(Matched(t, ids, inputs, m), Unmatched(inputs, m)), ids, m)
  {
    MatchedKeys(t, ids, inputs, m);
    var tm := Matched(t, ids, inputs, m);
    var cs := Unmatched(inputs, m);
    var r := RegisterAll(tm, cs);
    forall row | 0 <= row < |ids|
      ensures ids[row] in r.objects && ids[row] in r.disappeared
      ensures r.objects[ids[row]] == tm.objects[ids[row]] && r.disappeared[ids[row]] == tm.disappeared[ids[row]]
      ensures row in m ==> tm.objects[ids[row]] == inputs[m[row]] && tm.disappeared[ids[row]] == 0
      ensures row !in m ==>
        tm.objects[ids[row]] == t.objects[ids[row]] && tm.disappeared[ids[row]] == t.disappeared[ids[row]]
    {
      MatchedRow(t, ids, inputs, m, row);
      RegisterAllKeeps(tm, cs, ids[row]);
    }
  }

  /** The phase after matching when there are fewer tracks than inputs. */
  lemma MatchThenRegister(t: Tracks, maxDisappeared: int, ids: seq<nat>, inputs: seq<Point>, m: map<nat, nat>)
    requires WellFormed(t, maxDisappeared) && Distinct(ids)
    requires forall r :: r in m ==> r < |ids| && m[r] < |inputs|
    requires forall k :: 0 <= k < |ids| ==> ids[k] in t.objects
    ensures var r := RegisterAll(Matched(t, ids, inputs, m), Unmatched(inputs, m));
      r.objects.Keys == r.disappeared.Keys &&
      r.nextId == t.nextId + |UnmatchedColumns(m, |inputs|)|
    ensures var r := RegisterAll(Matched(t, ids, inputs, m), Unmatched(inputs, m));
      forall id :: id in r.objects <==> id in t.objects || t.nextId <= id < r.nextId
    ensures var r := RegisterAll(Matched(t, ids, inputs, m), Unmatched(inputs, m));
      ColumnsRegistered(t, r, inputs, UnmatchedColumns(m, |inputs|))
    ensures var r := RegisterAll(Matched(t, ids, inputs, m), Unmatched(inputs, m));
      MatchedRowsUpdated(r, ids, inputs, m) && UnmatchedRowsKept(t, r, ids, m)
  {
    MatchedKeys(t, ids, inputs, m);
    var tm := Matched(t, ids, inputs, m);
    var cs := Unmatched(inputs, m);
    assert |cs| == |UnmatchedColumns(m, |inputs|)|;
    RegisterAllKeys(tm, cs);
    RegisterAfterMatchColumns(t, maxDisappeared, ids, inputs, m);
    RegisterAfterMatchRows(t, maxDisappeared, ids, inputs, m);
  }

  /**
    More tracks than inputs (`D.shape[0] >= D.shape[1]`): no id is issued;
    matched tracks take their input's centroid with no misses; every unmatched
    track counts a miss and is forgotten exactly when that exceeds the
    patience, keeping its centroid otherwise. Unmatched inputs are dropped.
   */
  lemma UpdateMoreTracks(t: Tracks, maxDisappeared: int, rects: seq<Box>)
    requires WellFormed(t, maxDisappeared) && |rects| > 0 && |t.objects| >= |rects|
    ensures var inputs := Centroids(rects); var a := Assign(t, inputs);
      var r := UpdateSpec(t, maxDisappeared, rects);
      r.nextId == t.nextId && r.objects.Keys <= t.objects.Keys && r.disappeared.Keys == r.objects.Keys &&
      MatchedRowsUpdated(r, a.ids, inputs, a.matches) &&
      UnmatchedRowsAged(t, maxDisappeared, r, a.ids, a.matches)
  {
    var inputs := Centroids(rects);
    var a := Assign(t, inputs);
    IdsEnumerate(t, maxDisappeared);
    IdsCount(t, maxDisappeared);
    UpdateMatchCase(t, maxDisappeared, rects);
    MatchThenAge(t, maxDisappeared, a.ids, inputs, a.matches);
  }

  /**
    Fewer tracks than inputs: every track stays; matched tracks take their
    input's centroid with no misses; unmatched tracks are left exactly as they
    were; and each unmatched input, in ascending column order, becomes a new
    track with the next fresh id and no misses.
   */
  lemma UpdateMoreInputs(t: Tracks, maxDisappeared: int, rects: seq<Box>)
    requires WellFormed(t, maxDisappeared) && |t.objects| > 0 && |t.objects| < |rects|
    ensures var inputs := Centroids(rects); var a := Assign(t, inputs);
      var r := UpdateSpec(t, maxDisappeared, rects);
      r.objects.Keys == r.disappeared.Keys &&
      r.nextId == t.nextId + |UnmatchedColumns(a.matches, |inputs|)| &&
      (forall id :: id in r.objects <==> id in t.objects || t.nextId <= id < r.nextId) &&
      ColumnsRegistered(t, r, inputs, UnmatchedColumns(a.matches, |inputs|)) &&
      MatchedRowsUpdated(r, a.ids, inputs, a.matches) && UnmatchedRowsKept(t, r, a.ids, a.matches)
  {
    var inputs := Centroids(rects);
    var a := Assign(t, inputs);
    IdsEnumerate(t, maxDisappeared);
    IdsCount(t, maxDisappeared);
    UpdateMatchCase(t, maxDisappeared, rects);
    MatchThenRegister(t, maxDisappeared, a.ids, inputs, a.matches);
  }

  /** One more column considered: its centroid joins the picked ones exactly when it is unused. */
  lemma PickStep(inputs: seq<Point>, unusedCols: set<nat>, col: nat)
    requires col < |inputs|
    ensures Pick(inputs, KeysBelow(unusedCols, col + 1)) ==
      if col in unusedCols then Pick(inputs, KeysBelow(unusedCols, col)) + [inputs[col]]
      else Pick(inputs, KeysBelow(unusedCols, col))
  {
    var before := KeysBelow(unusedCols, col);
    if col in unusedCols {
      assert KeysBelow(unusedCols, col + 1) == before + [col];
      assert Pick(inputs, before + [col]) == Pick(inputs, before) + [inputs[col]];
    } else {
      assert KeysBelow(unusedCols, col + 1) == before;
    }
  }

  // ---------------------------------------------------------------------------
  // the tracker object

  /** `CentroidTracker`: the table kept in three fields that `update` rewrites in place. */
  class CentroidTracker {
    var nextObjectId: nat
    var objects: map<nat, Point>
    var disappeared: map<nat, int>
    const maxDisappeared: int

    /** The fields as a table value. */
    function State(): Tracks
      reads this
    {
      Tracks(objects, disappeared, nextObjectId)
    }

    predicate Valid()
      reads this
    {
      WellFormed(State(), maxDisappeared)
    }

    /** `__init__(max_disappeared)`: no tracks, first id 0. */
    constructor(maxDisappeared: int)
      ensures Valid()
      ensures this.maxDisappeared == maxDisappeared
      ensures State() == Tracks(map[], map[], 0)
    {
      nextObjectId := 0;
      objects := map[];
      disappeared := map[];
      this.maxDisappeared := maxDisappeared;
    }

    /** `register(centroid)`: a new track under the next id, with no misses. */
    method Register(centroid: Point)
      modifies this
      ensures State() == Registered(old(State()), centroid)
      ensures old(Valid()) ==> Valid()
    {
      objects := objects[nextObjectId := centroid];
      disappeared := disappeared[nextObjectId := 0];
      nextObjectId := nextObjectId + 1;
    }

    /** `deregister(object_id)`: forgets the track. */
    method Deregister(objectId: nat)
      requires objectId in objects && objectId in disappeared
      modifies this
      ensures State() == Deregistered(old(State()), objectId)
      ensures old(Valid()) ==> Valid()
    {
      objects := objects - {objectId};
      disappeared := disappeared - {objectId};
    }

    /** Lines 47-49 / 89-91 on the fields: one more miss for objectId, then forget it past the patience. */
    method Miss(objectId: nat)
      requires objectId in objects && objectId in disappeared
      modifies this
      ensures State() == AgeOne(old(State()), maxDisappeared, objectId)
    {
      disappeared := disappeared[objectId := disappeared[objectId] + 1];
      if disappeared[objectId] > maxDisappeared {
        Deregister(objectId);
      }
    }

    /** Lines 46-49: one miss for every id of keys, each in turn. */
    method MissAll(keys: seq<nat>)
      requires Distinct(keys)
      requires forall k :: 0 <= k < |keys| ==> keys[k] in objects && keys[k] in disappeared
      requires objects.Keys == disappeared.Keys
      modifies this
      ensures State() == Aged(old(State()), maxDisappeared, set k | 0 <= k < |keys| :: keys[k])
    {
      ghost var t0 := State();
      AgedNothing(t0, maxDisappeared);
      ghost var missed: set<nat> := {};
      var i := 0;
      while i < |keys|
        invariant 0 <= i <= |keys|
        invariant missed == set j | 0 <= j < i :: keys[j]
        invariant State() == Aged(t0, maxDisappeared, missed)
      {
        var objectId := keys[i];
        AgedStep(t0, maxDisappeared, missed, objectId);
        Miss(objectId);
        missed := missed + {objectId};
        i := i + 1;
      }
    }

    /** Lines 52-56: the centroid of each box, into a fresh buffer. */
    static method InputCentroids(rects: seq<Box>) returns (inputCentroids: array<Point>)
      ensures inputCentroids[..] == Centroids(rects)
    {
      inputCentroids := new Point[|rects|](_ => Point(0, 0));
      for i := 0 to |rects|
        invariant forall k :: 0 <= k < i ==> inputCentroids[k] == Centroid(rects[k])
      {
        var cX := HalfTowardZero(rects[i].startX + rects[i].endX);
        var cY := HalfTowardZero(rects[i].startY + rects[i].endY);
        inputCentroids[i] := Point(cX, cY);
      }
    }

    /** Lines 58-60: register every input centroid in order. */
    method RegisterEach(inputs: seq<Point>)
      modifies this
      ensures State() == RegisterAll(old(State()), inputs)
    {
      ghost var t0 := State();
      for i := 0 to |inputs|
        invariant State() == RegisterAll(t0, inputs[..i])
      {
        RegisterAllSnoc(t0, inputs[..i], inputs[i]);
        assert inputs[..i + 1] == inputs[..i] + [inputs[i]];
        Register(inputs[i]);
      }
      assert inputs[..|inputs|] == inputs;
    }

    /** Lines 76-78: the track objectId moves to centroid and its miss count restarts. */
    method Rematch(objectId: nat, centroid: Point)
      modifies this
      ensures State() == Tracks(old(objects)[objectId := centroid], old(disappeared)[objectId := 0], old(nextObjectId))
    {
      objects := objects[objectId := centroid];
      disappeared := disappeared[objectId := 0];
    }

    /**
      Lines 72-81 for one pair: a pair whose row or column is used is skipped,
      otherwise the row's track takes the column's centroid and both are used.
     */
    method TakePair(objectIds: seq<nat>, inputs: seq<Point>, ghost t0: Tracks, ghost m: map<nat, nat>,
                    usedRows: set<nat>, usedCols: set<nat>, row: nat, col: nat)
      returns (rowsAfter: set<nat>, colsAfter: set<nat>, ghost mAfter: map<nat, nat>)
      requires Distinct(objectIds) && row < |objectIds| && col < |inputs|
      requires forall r :: r in m ==> r < |objectIds| && m[r] < |inputs|
      requires usedRows == m.Keys && usedCols == m.Values
      requires objectIds[row] in t0.objects && objectIds[row] in t0.disappeared
      requires State() == Matched(t0, objectIds, inputs, m)
      modifies this
      ensures mAfter == if row in m.Keys || col in m.Values then m else m[row := col]
      ensures rowsAfter == mAfter.Keys && colsAfter == mAfter.Values
      ensures forall r :: r in mAfter ==> r < |objectIds| && mAfter[r] < |inputs|
      ensures State() == Matched(t0, objectIds, inputs, mAfter)
    {
      rowsAfter, colsAfter, mAfter := usedRows, usedCols, m;
      if row in usedRows || col in usedCols {
        return;
      }
      MatchedStep(t0, objectIds, inputs, m, row, col);
      Rematch(objectIds[row], inputs[col]);
      AddPair(m, row, col);
      rowsAfter := usedRows + {row};
      colsAfter := usedCols + {col};
      mAfter := m[row := col];
    }

    /**
      Lines 72-81: walk the pairs of zip(rows, cols), skipping a pair whose row
      or column is used, otherwise moving the row's track to the column's
      centroid. The used rows and columns are those of the Greedy matching.
     */
    method MatchPairs(objectIds: seq<nat>, inputs: seq<Point>, rows: seq<nat>, cols: seq<nat>)
      returns (usedRows: set<nat>, usedCols: set<nat>)
      requires Distinct(objectIds) && |rows| == |cols|
      requires forall k :: 0 <= k < |objectIds| ==> objectIds[k] in objects && objectIds[k] in disappeared
      requires forall k :: 0 <= k < |rows| ==> rows[k] < |objectIds| && cols[k] < |inputs|
      modifies this
      ensures usedRows == Greedy(rows, cols).Keys && usedCols == Greedy(rows, cols).Values
      ensures forall r :: r in Greedy(rows, cols) ==> r < |objectIds| && Greedy(rows, cols)[r] < |inputs|
      ensures State() == Matched(old(State()), objectIds, inputs, Greedy(rows, cols))
    {
      ghost var t0 := State();
      usedRows, usedCols := {}, {};
      ghost var m: map<nat, nat> := map[];
      for k := 0 to |rows|
        invariant m == Greedy(rows[..k], cols[..k])
        invariant usedRows == m.Keys && usedCols == m.Values
        invariant forall r :: r in m ==> r < |objectIds| && m[r] < |inputs|
        invariant State() == Matched(t0, objectIds, inputs, m)
      {
        GreedySnoc(rows, cols, k);
        usedRows, usedCols, m := TakePair(objectIds, inputs, t0, m, usedRows, usedCols, rows[k], cols[k]);
      }
      assert rows[..|rows|] == rows && cols[..|cols|] == cols;
    }

    /** Lines 86-91: one miss for the track of every unused row, in any order. */
    method MissRows(objectIds: seq<nat>, unusedRows: set<nat>)
      requires Distinct(objectIds)
      requires forall r :: r in unusedRows ==> r < |objectIds|
      requires forall k :: 0 <= k < |objectIds| ==> objectIds[k] in objects && objectIds[k] in disappeared
      requires objects.Keys == disappeared.Keys
      modifies this
      ensures State() == Aged(old(State()), maxDisappeared, RowIds(objectIds, unusedRows))
    {
      ghost var t0 := State();
      AgedNothing(t0, maxDisappeared);
      var left := unusedRows;
      ghost var missed: set<nat> := {};
      while left != {}
        invariant left <= unusedRows
        invariant missed == RowIds(objectIds, unusedRows - left)
        invariant State() == Aged(t0, maxDisappeared, missed)
        decreases |left|
      {
        var row :| row in left;
        var objectId := objectIds[row];
        AgedStep(t0, maxDisappeared, missed, objectId);
        Miss(objectId);
        left := left - {row};
        missed := missed + {objectId};
      }
      assert unusedRows - left == unusedRows;
    }

    /** Lines 92-94: register the centroid of every unused column, in ascending column order. */
    method RegisterColumns(inputs: seq<Point>, unusedCols: set<nat>)
      modifies this
      ensures State() == RegisterAll(old(State()), Pick(inputs, KeysBelow(unusedCols, |inputs|)))
    {
      ghost var t0 := State();
      for col := 0 to |inputs|
        invariant State() == RegisterAll(t0, Pick(inputs, KeysBelow(unusedCols, col)))
      {
        PickStep(inputs, unusedCols, col);
        if col in unusedCols {
          RegisterAllSnoc(t0, Pick(inputs, KeysBelow(unusedCols, col)), inputs[col]);
          Register(inputs[col]);
        }
      }
    }

    /**
      Lines 62-94: the assignment step over the live tracks and the inputs,
      then either ageing the unmatched tracks or registering the unmatched
      inputs.
     */
    method AssignAndResolve(inputs: seq<Point>)
      requires Valid() && |objects| > 0 && |inputs| > 0
      modifies this
      ensures var t := old(State()); var a := Assign(t, inputs);
        var tm := Matched(t, a.ids, inputs, a.matches);
        State() ==
          if |a.ids| >= |inputs| then Aged(tm, maxDisappeared, RowIds(a.ids, RowsLeft(a.matches.Keys, |a.ids|)))
          else RegisterAll(tm, Unmatched(inputs, a.matches))
    {
      ghost var t0 := State();
      IdsEnumerate(t0, maxDisappeared);
      var objectIds, d, rows, cols := Rank(inputs);
      ghost var m := Greedy(rows, cols);
      assert Assign(t0, inputs).matches == m;

      var usedRows, usedCols := MatchPairs(objectIds, inputs, rows, cols);
      MatchedKeys(t0, objectIds, inputs, m);

      var unusedRows := RowsLeft(usedRows, |objectIds|);
      var unusedCols := ColumnsLeft(usedCols, |inputs|);
      if |objectIds| >= |inputs| {
        MissRows(objectIds, unusedRows);
      } else {
        RegisterColumns(inputs, unusedCols);
      }
    }

    /**
      Lines 62-67: the ids in insertion order, which is ascending; the matrix D
      of (squared) distances between their centroids and the inputs; the rows
      ordered by their smallest distance; and each row's first nearest column.
     */
    method Rank(inputs: seq<Point>) returns (objectIds: seq<nat>, d: seq<seq<int>>, rows: seq<nat>, cols: seq<nat>)
      requires Valid() && |inputs| > 0
      ensures Increasing(objectIds) && forall v: nat :: v in objectIds <==> v in objects
      ensures |d| == |objectIds| && forall i :: 0 <= i < |d| ==> |d[i]| == |inputs|
      ensures forall i, j :: 0 <= i < |d| && 0 <= j < |inputs| ==>
        objectIds[i] in objects && d[i][j] == SqDist(objects[objectIds[i]], inputs[j])
      ensures |rows| == |objectIds| && Distinct(rows) && forall r :: 0 <= r < |objectIds| ==> r in rows
      ensures forall k :: 0 <= k < |rows| ==> rows[k] < |objectIds|
      ensures forall k1, k2 :: 0 <= k1 < k2 < |rows| ==> RowMin(d[rows[k1]]) <= RowMin(d[rows[k2]])
      ensures |cols| == |rows| && forall k :: 0 <= k < |rows| ==> cols[k] == ArgMin(d[rows[k]])
      ensures var a := Assign(State(), inputs); objectIds == a.ids && d == a.dist && rows == a.rows && cols == a.cols
    {
      objectIds := KeysBelow(objects.Keys, nextObjectId);
      IdsEnumerate(State(), maxDisappeared);
      d := Distances(ObjectCentroids(State(), objectIds), inputs);
      rows := ArgSort(RowMins(d));
      cols := Cols(d, rows);
      AssignmentRowOrder(State(), inputs);
    }

    /**
      `update(rects)`: the table afterwards is exactly UpdateSpec of the table
      before, it stays well formed, and the returned dictionary is `objects`.
     */
    method Update(rects: seq<Box>) returns (result: map<nat, Point>)
      requires Valid()
      modifies this
      ensures Valid()
      ensures State() == UpdateSpec(old(State()), maxDisappeared, rects)
      ensures result == objects
    {
      ghost var t0 := State();
      UpdateWellFormed(t0, maxDisappeared, rects);
      IdsEnumerate(t0, maxDisappeared);
      if |rects| == 0 {
        var keys := KeysBelow(disappeared.Keys, nextObjectId);
        MissAll(keys);
        assert (set k | 0 <= k < |keys| :: keys[k]) == t0.disappeared.Keys;
        return objects;
      }

      var inputCentroids := InputCentroids(rects);
      var inputs := inputCentroids[..];

      if |objects| == 0 {
        RegisterEach(inputs);
        return objects;
      }

      AssignAndResolve(inputs);
      UpdateMatchCase(t0, maxDisappeared, rects);
      return objects;
    }
  }
}
