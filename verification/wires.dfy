/** Day 3: two wires drawn on a grid from a common origin, as a list of
    moves each; the points each wire visits, with the number of steps it
    takes to first reach each one; and the crossing nearest the origin, by
    Manhattan distance or by combined steps. All of `src/bin/day3/main.rs`. */
module Wires {
  import opened Results
  import opened Arith
  import opened Text

  datatype Point = Point(x: int, y: int)

  /** Where both wires start. */
  const Origin := Point(0, 0)

  datatype Direction = U | D | L | R

  /** Why a wire description is rejected, or why the puzzle has no answer:
      the source panics (`unwrap`, a slice out of range) in each case. */
  datatype WireError =
    | EmptyPiece
    | BadDirection(name: string)
    | BadDistance(error: ParseIntError)
    | NoIntersection

  /** The letter that names each direction. */
  function Name(d: Direction): string {
    match d
    case U => "U"
    case D => "D"
    case L => "L"
    case R => "R"
  }

  /** `Direction::from_str`: exactly the four one-letter names. */
  function ParseDirection(s: string): (r: Result<Direction, WireError>)
    ensures r.Ok? <==> s == "U" || s == "D" || s == "L" || s == "R"
    ensures r.Ok? ==> Name(r.value) == s
    ensures r.Err? ==> r.error == BadDirection(s)
  {
    if s == "U" then Ok(U)
    else if s == "D" then Ok(D)
    else if s == "L" then Ok(L)
    else if s == "R" then Ok(R)
    else Err(BadDirection(s))
  }

  /** Parsing a direction's name gives the direction back. */
  lemma ParseName(d: Direction)
    ensures ParseDirection(Name(d)) == Ok(d)
  {
  }

  /** The point `k` steps from `p` in direction `d`. */
  function Shift(p: Point, d: Direction, k: int): Point {
    match d
    case U => Point(p.x, p.y + k)
    case D => Point(p.x, p.y - k)
    case R => Point(p.x + k, p.y)
    case L => Point(p.x - k, p.y)
  }

  /** `get_manhattan_distance`. */
  function Manhattan(a: Point, b: Point): (m: nat)
    ensures m == 0 <==> a == b
  {
    Abs(a.x - b.x) + Abs(a.y - b.y)
  }

  /** The distance is symmetric and obeys the triangle inequality. */
  lemma ManhattanMetric(a: Point, b: Point, c: Point)
    ensures Manhattan(a, b) == Manhattan(b, a)
    ensures Manhattan(a, c) <= Manhattan(a, b) + Manhattan(b, c)
  {
  }

  /** Moving `k` steps in one direction covers a distance of `|k|`. */
  lemma ManhattanShift(p: Point, d: Direction, k: int)
    ensures Manhattan(p, Shift(p, d, k)) == Abs(k)
  {
  }

  /** The examples of `test_get_manhattan_distance`. */
  lemma ManhattanExamples()
    ensures Manhattan(Point(0, 0), Point(0, 1)) == 1
    ensures Manhattan(Point(0, 1), Point(3, 7)) == 9
    ensures Manhattan(Point(0, 0), Point(-3, -3)) == 6
    ensures Manhattan(Point(-7, 3), Point(1, 2)) == 9
  {
  }

  /** `GridVector`: a line of `distance` steps from `origin` in `direction`,
      with the iterator's cursor (`_iter_state`). */
  datatype GridVector = GridVector(origin: Point, direction: Direction, distance: int, cursor: Point)

  /** `GridVector::new`: the cursor starts at the origin, on the line and
      with no progress, so the iterator is finished at once exactly when the
      line has no steps. */
  function NewVector(origin: Point, direction: Direction, distance: int): (gv: GridVector)
    ensures gv.origin == origin && gv.direction == direction && gv.distance == distance
    ensures OnLine(gv) && Progress(gv) == 0
    ensures IterIsFinished(gv) <==> distance == 0
  {
    GridVector(origin, direction, distance, origin)
  }

  /** How far the cursor has moved from the origin along the direction. */
  function Progress(gv: GridVector): int {
    match gv.direction
    case U => gv.cursor.y - gv.origin.y
    case D => gv.origin.y - gv.cursor.y
    case R => gv.cursor.x - gv.origin.x
    case L => gv.origin.x - gv.cursor.x
  }

  /** The cursor lies on the vector's line. */
  predicate OnLine(gv: GridVector) {
    gv.cursor == Shift(gv.origin, gv.direction, Progress(gv))
  }

  /** `iter_is_finished`: the cursor's coordinate along the direction has
      reached the end of the line. */
  function IterIsFinished(gv: GridVector): (b: bool)
    ensures OnLine(gv) ==> (b <==> Progress(gv) == gv.distance)
  {
    match gv.direction
    case U => gv.cursor.y == gv.origin.y + gv.distance
    case D => gv.cursor.y == gv.origin.y - gv.distance
    case R => gv.cursor.x == gv.origin.x + gv.distance
    case L => gv.cursor.x == gv.origin.x - gv.distance
  }

  /** `Iterator::next`: at the end of the line, `None` and the cursor back at
      the origin; otherwise the cursor moves one step and is produced. */
  function Next(gv: GridVector): (r: (GridVector, Option<Point>))
    ensures IterIsFinished(gv) ==> r.1.None? && r.0 == gv.(cursor := gv.origin)
    ensures !IterIsFinished(gv) ==> r.0 == gv.(cursor := Shift(gv.cursor, gv.direction, 1)) && r.1 == Some(r.0.cursor)
    ensures OnLine(gv) && !IterIsFinished(gv) ==> OnLine(r.0) && Progress(r.0) == Progress(gv) + 1
  {
    if IterIsFinished(gv) then (gv.(cursor := gv.origin), None)
    else
      var next := gv.(cursor := Shift(gv.cursor, gv.direction, 1));
      (next, Some(next.cursor))
  }

  /** The points of a line of `n` steps from `origin`, the origin itself
      left out: the reference for what the iterator produces. */
  function Segment(origin: Point, d: Direction, n: nat): (points: seq<Point>)
    ensures |points| == n
    ensures forall i | 0 <= i < n :: points[i] == Shift(origin, d, i + 1)
  {
    seq(n, i requires 0 <= i < n => Shift(origin, d, i + 1))
  }

  /** Everything the iterator produces from its current cursor until it
      returns `None`. */
  function Collect(gv: GridVector): (points: seq<Point>)
    requires OnLine(gv) && 0 <= Progress(gv) <= gv.distance
    ensures |points| == gv.distance - Progress(gv)
    ensures forall i | 0 <= i < |points| :: points[i] == Shift(gv.origin, gv.direction, Progress(gv) + i + 1)
    decreases gv.distance - Progress(gv)
  {
    var (next, p) := Next(gv);
    match p
    case None => []
    case Some(q) => [q] + Collect(next)
  }

  /** A fresh vector of a non-negative distance produces exactly its
      segment. */
  lemma CollectIsSegment(origin: Point, d: Direction, n: nat)
    ensures Collect(NewVector(origin, d, n)) == Segment(origin, d, n)
  {
  }

  /** The examples of `test_gridvector_iterator`, on the segments a fresh
      vector produces (`CollectIsSegment`): three steps up end at `(0, 3)`
      with `(0, 2)` second, and five steps left end at `(-5, 0)`. */
  lemma IteratorExamples()
    ensures Segment(Origin, U, 3) == [Point(0, 1), Point(0, 2), Point(0, 3)]
    ensures Segment(Origin, L, 5) == [Point(-1, 0), Point(-2, 0), Point(-3, 0), Point(-4, 0), Point(-5, 0)]
  {
    var up := Segment(Origin, U, 3);
    assert up[0] == Point(0, 1) && up[1] == Point(0, 2) && up[2] == Point(0, 3);
    var left := Segment(Origin, L, 5);
    assert left[0] == Point(-1, 0) && left[1] == Point(-2, 0) && left[2] == Point(-3, 0);
    assert left[3] == Point(-4, 0) && left[4] == Point(-5, 0);
  }

  /** `k` calls of `next`, ignoring what they produce. */
  function Advance(gv: GridVector, k: nat): GridVector
    decreases k
  {
    if k == 0 then gv else Advance(Next(gv).0, k - 1)
  }

  /** A vector with a negative distance never finishes: its cursor moves
      away from the end of the line at every call, so the `for` loop over
      it in `find_points_visited` does not end. */
  lemma {:induction false} NegativeNeverFinishes(gv: GridVector, k: nat)
    requires OnLine(gv) && gv.distance < 0 <= Progress(gv)
    ensures OnLine(Advance(gv, k)) && Progress(Advance(gv, k)) == Progress(gv) + k
    ensures !IterIsFinished(Advance(gv, k))
    decreases k
  {
    if k > 0 {
      NegativeNeverFinishes(Next(gv).0, k - 1);
    }
  }

  /** One entry of a wire: a direction and a number of steps. */
  datatype Move = Move(direction: Direction, distance: int)

  /** Every distance is non-negative, so that every line ends. */
  predicate Drawable(path: seq<Move>) {
    forall i | 0 <= i < |path| :: path[i].distance >= 0
  }

  /** Where a wire that starts at `start` ends. */
  function End(start: Point, path: seq<Move>): Point
    decreases |path|
  {
    if |path| == 0 then start
    else End(Shift(start, path[0].direction, path[0].distance), path[1..])
  }

  /** Every point a wire passes through, in order, with repeats, its start
      left out. */
  function Trace(start: Point, path: seq<Move>): (points: seq<Point>)
    requires Drawable(path)
    decreases |path|
  {
    if |path| == 0 then []
    else
      var m := path[0];
      Segment(start, m.direction, m.distance) + Trace(Shift(start, m.direction, m.distance), path[1..])
  }

  /** Adding a move to a wire adds its segment, from the wire's end, to the
      trace. */
  lemma {:induction false} TraceSnoc(start: Point, path: seq<Move>, m: Move)
    requires Drawable(path) && m.distance >= 0
    ensures Drawable(path + [m])
    ensures Trace(start, path + [m]) == Trace(start, path) + Segment(End(start, path), m.direction, m.distance)
    ensures End(start, path + [m]) == Shift(End(start, path), m.direction, m.distance)
    decreases |path|
  {
    assert Drawable(path + [m]) by {
      forall i | 0 <= i < |path| + 1 ensures (path + [m])[i].distance >= 0 {
        if i < |path| {
          assert (path + [m])[i] == path[i];
        }
      }
    }
    if |path| == 0 {
      assert path + [m] == [m];
      assert [m][1..] == [];
    } else {
      var first := path[0];
      var next := Shift(start, first.direction, first.distance);
      assert (path + [m])[1..] == path[1..] + [m];
      TraceSnoc(next, path[1..], m);
    }
  }

  /** The first-visit map of `find_points_visited`, built one point at a
      time: a point already present keeps its step count (`or_insert`); a
      new one gets the number of steps taken so far, this one included. */
  function Record(visited: map<Point, nat>, points: seq<Point>, travelled: nat): map<Point, nat>
    decreases |points|
  {
    if |points| == 0 then visited
    else
      var steps := travelled + 1;
      var p := points[0];
      Record(if p in visited then visited else visited[p := steps], points[1..], steps)
  }

  /** Recording one more point after a run of them. */
  lemma {:induction false} RecordSnoc(visited: map<Point, nat>, points: seq<Point>, p: Point, travelled: nat)
    ensures Record(visited, points + [p], travelled) ==
              var before := Record(visited, points, travelled);
              if p in before then before else before[p := travelled + |points| + 1]
    decreases |points|
  {
    if |points| == 0 {
      assert points + [p] == [p];
    } else {
      var q := points[0];
      assert (points + [p])[1..] == points[1..] + [p];
      RecordSnoc(if q in visited then visited else visited[q := travelled + 1], points[1..], p, travelled + 1);
    }
  }

  /** The map's keys: those it had, and every point of the run. */
  lemma {:induction false} RecordKeys(visited: map<Point, nat>, points: seq<Point>, travelled: nat)
    ensures forall p :: p in Record(visited, points, travelled) <==> p in visited || p in points
    decreases |points|
  {
    if |points| > 0 {
      var q := points[0];
      RecordKeys(if q in visited then visited else visited[q := travelled + 1], points[1..], travelled + 1);
      assert points == [q] + points[1..];
    }
  }

  /** A point new to the map gets a step count within the run: more than
      the steps already taken, and no more than the run's last. */
  lemma {:induction false} RecordRange(visited: map<Point, nat>, points: seq<Point>, travelled: nat)
    ensures forall p | p in Record(visited, points, travelled) && p !in visited ::
              travelled < Record(visited, points, travelled)[p] <= travelled + |points|
    decreases |points|
  {
    if |points| > 0 {
      var q := points[0];
      var next := if q in visited then visited else visited[q := travelled + 1];
      RecordRange(next, points[1..], travelled + 1);
      if q !in visited {
        RecordKeeps(next, points[1..], travelled + 1, q);
      }
    }
  }

  /** A point already in the map keeps its step count. */
  lemma {:induction false} RecordKeeps(visited: map<Point, nat>, points: seq<Point>, travelled: nat, p: Point)
    requires p in visited
    ensures p in Record(visited, points, travelled) && Record(visited, points, travelled)[p] == visited[p]
    decreases |points|
  {
    if |points| > 0 {
      var q := points[0];
      RecordKeeps(if q in visited then visited else visited[q := travelled + 1], points[1..], travelled + 1, p);
    }
  }

  /** A point new to the map gets the step count of its first occurrence in
      the run. */
  lemma {:induction false} RecordFirstAt(visited: map<Point, nat>, points: seq<Point>, travelled: nat, i: nat)
    requires i < |points| && points[i] !in visited && points[i] !in points[..i]
    ensures points[i] in Record(visited, points, travelled)
    ensures Record(visited, points, travelled)[points[i]] == travelled + i + 1
    decreases |points|
  {
    var q := points[0];
    var next := if q in visited then visited else visited[q := travelled + 1];
    if i == 0 {
      RecordKeeps(next, points[1..], travelled + 1, q);
    } else {
      assert points[i] != q by { assert points[..i][0] == q; }
      assert points[1..][i - 1] == points[i];
      assert points[1..][..i - 1] == points[1..i];
      assert points[i] !in points[1..i] by {
        assert forall k | 0 <= k < i - 1 :: points[1..i][k] == points[..i][k + 1];
      }
      RecordFirstAt(next, points[1..], travelled + 1, i - 1);
    }
  }

  /** `find_points_visited` as a function: the first-visit map of the
      wire's trace from the origin. Its keys are the points the wire passes
      through, and every step count lies between one and the trace's length. */
  function Visited(path: seq<Move>): (v: map<Point, nat>)
    requires Drawable(path)
    ensures forall p :: p in v <==> p in Trace(Origin, path)
    ensures forall p | p in v :: 1 <= v[p] <= |Trace(Origin, path)|
  {
    var trace := Trace(Origin, path);
    RecordKeys(map[], trace, 0);
    RecordRange(map[], trace, 0);
    Record(map[], trace, 0)
  }

  /** The number of steps a wire takes: the sum of its distances. */
  function TotalDistance(path: seq<Move>): int
    decreases |path|
  {
    if |path| == 0 then 0 else path[0].distance + TotalDistance(path[1..])
  }

  /** A wire's trace has one point per step it takes. */
  lemma {:induction false} TraceLength(start: Point, path: seq<Move>)
    requires Drawable(path)
    ensures |Trace(start, path)| == TotalDistance(path)
    decreases |path|
  {
    if |path| > 0 {
      var m := path[0];
      assert Drawable(path[1..]) by {
        forall k | 0 <= k < |path| - 1 ensures path[1..][k].distance >= 0 {
          assert path[1..][k] == path[k + 1];
        }
      }
      TraceLength(Shift(start, m.direction, m.distance), path[1..]);
    }
  }

  /** A wire visits exactly the points of its trace, and the map gives, for
      each one, the number of steps to its first occurrence. */
  lemma VisitedFirst(path: seq<Move>)
    requires Drawable(path)
    ensures forall p :: p in Visited(path) <==> p in Trace(Origin, path)
    ensures forall i | 0 <= i < |Trace(Origin, path)| && Trace(Origin, path)[i] !in Trace(Origin, path)[..i] ::
              Visited(path)[Trace(Origin, path)[i]] == i + 1
  {
    var trace := Trace(Origin, path);
    RecordKeys(map[], trace, 0);
    forall i | 0 <= i < |trace| && trace[i] !in trace[..i]
      ensures Visited(path)[trace[i]] == i + 1
    {
      RecordFirstAt(map[], trace, 0, i);
    }
  }

  /** `find_points_visited` as the source writes it: one `for` loop over the
      moves, and inside it one over the points of each move's vector. */
  method FindPointsVisited(path: seq<Move>) returns (visited: map<Point, nat>)
    requires Drawable(path)
    ensures visited == Visited(path)
  {
    var start := Origin;
    visited := map[];
    var travelled: nat := 0;
    for i := 0 to |path|
      invariant Drawable(path[..i])
      invariant start == End(Origin, path[..i])
      invariant travelled == |Trace(Origin, path[..i])|
      invariant visited == Record(map[], Trace(Origin, path[..i]), 0)
    {
      var m := path[i];
      assert path[..i + 1] == path[..i] + [m];
      TraceSnoc(Origin, path[..i], m);
      visited, start, travelled := VisitSegment(visited, start, travelled, m, Trace(Origin, path[..i]));
    }
    assert path[..|path|] == path;
  }

  /** The inner loop of `find_points_visited`: each point of one move's
      vector recorded in turn, after the points `before` it. */
  method VisitSegment(visited0: map<Point, nat>, start0: Point, travelled0: nat, m: Move, ghost before: seq<Point>)
    returns (visited: map<Point, nat>, start: Point, travelled: nat)
    requires m.distance >= 0
    requires visited0 == Record(map[], before, 0) && travelled0 == |before|
    ensures visited == Record(map[], before + Segment(start0, m.direction, m.distance), 0)
    ensures start == Shift(start0, m.direction, m.distance)
    ensures travelled == |before| + m.distance
  {
    visited, start, travelled := visited0, start0, travelled0;
    var gv := NewVector(start, m.direction, m.distance);
    var step := Next(gv);
    var j := 0;
    assert before + Segment(start0, m.direction, 0) == before;
    while step.1.Some?
      invariant 0 <= j <= m.distance
      invariant OnLine(gv) && gv.origin == start0 && gv.direction == m.direction && gv.distance == m.distance
      invariant Progress(gv) == j && step == Next(gv)
      invariant start == Shift(start0, m.direction, j)
      invariant travelled == |before| + j
      invariant visited == Record(map[], before + Segment(start0, m.direction, j), 0)
      decreases m.distance - j
    {
      var point := step.1.value;
      RecordSnoc(map[], before + Segment(start0, m.direction, j), point, 0);
      assert (before + Segment(start0, m.direction, j)) + [point] == before + Segment(start0, m.direction, j + 1);
      travelled := travelled + 1;
      if point !in visited {
        visited := visited[point := travelled];
      }
      start := point;
      j := j + 1;
      gv := step.0;
      step := Next(gv);
    }
  }

  /** The example of `test_find_points_visited`: three steps up and two
      left reach `(0, 1)` after one step, `(0, 3)` after three and
      `(-2, 3)` after five. */
  lemma VisitedExample()
    ensures Drawable([Move(U, 3), Move(L, 2)])
    ensures Visited([Move(U, 3), Move(L, 2)]) ==
              map[Point(0, 1) := 1, Point(0, 2) := 2, Point(0, 3) := 3, Point(-1, 3) := 4, Point(-2, 3) := 5]
  {
    TraceExample();
    RecordExample();
  }

  /** The points of that example's wire. */
  lemma TraceExample()
    ensures Drawable([Move(U, 3), Move(L, 2)])
    ensures Trace(Origin, [Move(U, 3), Move(L, 2)]) ==
              [Point(0, 1), Point(0, 2), Point(0, 3), Point(-1, 3), Point(-2, 3)]
  {
    var path := [Move(U, 3), Move(L, 2)];
    var up := Segment(Origin, U, 3);
    assert up == [Point(0, 1), Point(0, 2), Point(0, 3)] by {
      assert up[0] == Shift(Origin, U, 1) && up[1] == Shift(Origin, U, 2) && up[2] == Shift(Origin, U, 3);
    }
    var left := Segment(Point(0, 3), L, 2);
    assert left == [Point(-1, 3), Point(-2, 3)] by {
      assert left[0] == Shift(Point(0, 3), L, 1) && left[1] == Shift(Point(0, 3), L, 2);
    }
    assert path[1..] == [Move(L, 2)];
    assert Trace(Point(0, 3), [Move(L, 2)]) == left + Trace(Point(-2, 3), []);
  }

  /** The first-visit map of those points, none of which repeats. */
  lemma RecordExample()
    ensures Record(map[], [Point(0, 1), Point(0, 2), Point(0, 3), Point(-1, 3), Point(-2, 3)], 0) ==
              map[Point(0, 1) := 1, Point(0, 2) := 2, Point(0, 3) := 3, Point(-1, 3) := 4, Point(-2, 3) := 5]
  {
    var trace := [Point(0, 1), Point(0, 2), Point(0, 3), Point(-1, 3), Point(-2, 3)];
    var m1 := map[Point(0, 1) := 1];
    var m2 := m1[Point(0, 2) := 2];
    var m3 := m2[Point(0, 3) := 3];
    var m4 := m3[Point(-1, 3) := 4];
    var m5 := m4[Point(-2, 3) := 5];
    assert Record(map[], trace, 0) == Record(m1, trace[1..], 1);
    assert Record(m1, trace[1..], 1) == Record(m2, trace[2..], 2);
    assert Record(m2, trace[2..], 2) == Record(m3, trace[3..], 3);
    assert Record(m3, trace[3..], 3) == Record(m4, trace[4..], 4);
    assert Record(m4, trace[4..], 4) == Record(m5, [], 5);
  }

  /** A wire is never further from its start than the number of steps it
      has taken. */
  lemma {:induction false} TraceWithinReach(start: Point, path: seq<Move>, i: nat)
    requires Drawable(path) && i < |Trace(start, path)|
    ensures Manhattan(start, Trace(start, path)[i]) <= i + 1
    decreases |path|
  {
    var m := path[0];
    var next := Shift(start, m.direction, m.distance);
    var segment := Segment(start, m.direction, m.distance);
    assert Drawable(path[1..]) by {
      forall k | 0 <= k < |path| - 1 ensures path[1..][k].distance >= 0 {
        assert path[1..][k] == path[k + 1];
      }
    }
    if i < |segment| {
      ManhattanShift(start, m.direction, i + 1);
    } else {
      assert Trace(start, path)[i] == Trace(next, path[1..])[i - |segment|];
      TraceWithinReach(next, path[1..], i - |segment|);
      ManhattanShift(start, m.direction, m.distance);
      ManhattanMetric(start, next, Trace(start, path)[i]);
    }
  }

  /** Reaching a point takes at least as many steps as its distance from
      the origin. */
  lemma VisitedWithinReach(path: seq<Move>, p: Point)
    requires Drawable(path) && p in Visited(path)
    ensures Manhattan(Origin, p) <= Visited(path)[p] <= TotalDistance(path)
  {
    TraceLength(Origin, path);
    var trace := Trace(Origin, path);
    VisitedFirst(path);
    var i :| 0 <= i < |trace| && trace[i] == p;
    var first := FirstIndex(trace, p, i);
    TraceWithinReach(Origin, path, first);
  }

  /** The first occurrence of `p` in `points`, which occurs at `i`. */
  function FirstIndex(points: seq<Point>, p: Point, i: nat): (k: nat)
    requires i < |points| && points[i] == p
    ensures k <= i && points[k] == p && p !in points[..k]
  {
    if p in points[..i] then
      var j :| 0 <= j < i && points[..i][j] == p;
      FirstIndex(points, p, j)
    else i
  }

  /** The points of `points`, in order, that `other` has a step count for. */
  function Shared(points: seq<Point>, other: map<Point, nat>): (r: seq<Point>)
    ensures forall p :: p in r <==> p in points && p in other
    decreases |points|
  {
    if |points| == 0 then []
    else
      assert forall p :: p in points <==> p == points[0] || p in points[1..] by {
        assert points == [points[0]] + points[1..];
      }
      (if points[0] in other then [points[0]] else []) + Shared(points[1..], other)
  }

  /** A member of a non-empty list of smallest cost. */
  function Least(points: seq<Point>, cost: Point -> int): (r: Point)
    requires |points| > 0
    ensures r in points && forall p | p in points :: cost(r) <= cost(p)
    decreases |points|
  {
    if |points| == 1 then points[0]
    else
      assert forall p :: p in points <==> p == points[0] || p in points[1..] by {
        assert points == [points[0]] + points[1..];
      }
      var rest := Least(points[1..], cost);
      if cost(points[0]) <= cost(rest) then points[0] else rest
  }

  /** The points both wires visit. */
  function Crossings(w1: seq<Move>, w2: seq<Move>): set<Point>
    requires Drawable(w1) && Drawable(w2)
  {
    set p | p in Visited(w2) && p in Visited(w1)
  }

  /** The crossings, listed in the order the second wire reaches them. */
  function CrossingList(w1: seq<Move>, w2: seq<Move>): (r: seq<Point>)
    requires Drawable(w1) && Drawable(w2)
    ensures forall p :: p in r <==> p in Crossings(w1, w2)
  {
    VisitedFirst(w2);
    Shared(Trace(Origin, w2), Visited(w1))
  }

  /** `part1`: the smallest Manhattan distance from the origin to a point
      both wires visit; `unwrap` panics when there is none. */
  function Part1(w1: seq<Move>, w2: seq<Move>): (r: Result<nat, WireError>)
    requires Drawable(w1) && Drawable(w2)
    ensures r.Err? <==> Crossings(w1, w2) == {}
    ensures r.Err? ==> r.error == NoIntersection
    ensures r.Ok? ==> exists p | p in Crossings(w1, w2) :: Manhattan(p, Origin) == r.value
    ensures r.Ok? ==> forall p | p in Crossings(w1, w2) :: r.value <= Manhattan(p, Origin)
  {
    var crossings := CrossingList(w1, w2);
    if |crossings| == 0 then
      assert forall p | p in Crossings(w1, w2) :: p in crossings;
      Err(NoIntersection)
    else
      var cost := p => Manhattan(p, Origin);
      var nearest := Least(crossings, cost);
      assert forall p | p in Crossings(w1, w2) :: p in crossings && cost(p) == Manhattan(p, Origin);
      Ok(Manhattan(nearest, Origin))
  }

  /** The combined number of steps both wires take to first reach `p`, or
      0 if one of them never does. */
  function Combined(v1: map<Point, nat>, v2: map<Point, nat>, p: Point): nat {
    (if p in v1 then v1[p] else 0) + (if p in v2 then v2[p] else 0)
  }

  /** `part2`: the smallest combined number of steps the two wires take to
      first reach a point both visit. */
  function Part2(w1: seq<Move>, w2: seq<Move>): (r: Result<nat, WireError>)
    requires Drawable(w1) && Drawable(w2)
    ensures r.Err? <==> Crossings(w1, w2) == {}
    ensures r.Err? ==> r.error == NoIntersection
    ensures r.Ok? ==> exists p | p in Crossings(w1, w2) :: Visited(w1)[p] + Visited(w2)[p] == r.value
    ensures r.Ok? ==> forall p | p in Crossings(w1, w2) :: r.value <= Visited(w1)[p] + Visited(w2)[p]
  {
    var crossings := CrossingList(w1, w2);
    if |crossings| == 0 then
      assert forall p | p in Crossings(w1, w2) :: p in crossings;
      Err(NoIntersection)
    else
      var v1 := Visited(w1);
      var v2 := Visited(w2);
      var cost := p => Combined(v1, v2, p);
      var quickest := Least(crossings, cost);
      assert forall p | p in Crossings(w1, w2) :: p in crossings && cost(p) == v1[p] + v2[p];
      Ok(v1[quickest] + v2[quickest])
  }

  /** Both answers exist together, and the quickest crossing by steps is at
      least twice as far as the nearest one by distance: each wire needs at
      least that distance in steps to reach it. */
  lemma Part2AtLeastTwicePart1(w1: seq<Move>, w2: seq<Move>)
    requires Drawable(w1) && Drawable(w2)
    ensures Part1(w1, w2).Ok? <==> Part2(w1, w2).Ok?
    ensures Part2(w1, w2).Ok? ==> 2 * Part1(w1, w2).value <= Part2(w1, w2).value
  {
    if Part2(w1, w2).Ok? {
      var p :| p in Crossings(w1, w2) && Visited(w1)[p] + Visited(w2)[p] == Part2(w1, w2).value;
      VisitedWithinReach(w1, p);
      VisitedWithinReach(w2, p);
      ManhattanMetric(p, Origin, p);
    }
  }

  /** `parse_wire_to_vec` on one piece: the first character names the
      direction and the rest is the distance, parsed as `i32`. An empty
      piece makes the slice `s[0..1]` panic. */
  function ParsePiece(s: string): (r: Result<Move, WireError>)
    ensures |s| == 0 ==> r == Err(EmptyPiece)
    ensures |s| > 0 && ParseDirection(s[..1]).Err? ==> r == Err(BadDirection(s[..1]))
    ensures r.Ok? <==> |s| > 0 && ParseDirection(s[..1]).Ok? && ParseInt(s[1..]).Ok?
    ensures r.Ok? ==> Name(r.value.direction) + s[1..] == s && Ok(r.value.distance) == ParseInt(s[1..])
  {
    if |s| == 0 then Err(EmptyPiece)
    else
      var direction :- ParseDirection(s[..1]);
      match ParseInt(s[1..])
      case Err(e) => Err(BadDistance(e))
      case Ok(n) => Ok(Move(direction, n))
  }

  /** Each piece in turn; the first that fails decides the error, since the
      lazy `collect` panics there before looking at the rest. */
  function ParsePieces(pieces: seq<string>): (r: Result<seq<Move>, WireError>)
    ensures r.Ok? ==> |r.value| == |pieces| && forall i | 0 <= i < |pieces| :: ParsePiece(pieces[i]) == Ok(r.value[i])
    ensures r.Err? ==> exists i | 0 <= i < |pieces| ::
              && ParsePiece(pieces[i]) == Err(r.error)
              && forall j | 0 <= j < i :: ParsePiece(pieces[j]).Ok?
    decreases |pieces|
  {
    if |pieces| == 0 then Ok([])
    else
      var m :- ParsePiece(pieces[0]);
      var rest :- ParsePieces(pieces[1..]);
      Ok([m] + rest)
  }

  /** `parse_wire_to_vec`: the wire's pieces between commas, each parsed to
      the move at its place, or the error of the first piece that fails. */
  function ParseWire(wire: string): (r: Result<seq<Move>, WireError>)
    ensures r.Ok? ==> |r.value| == |Split(wire, ',')|
    ensures r.Ok? ==> forall i | 0 <= i < |r.value| :: ParsePiece(Split(wire, ',')[i]) == Ok(r.value[i])
    ensures r.Err? ==> exists i | 0 <= i < |Split(wire, ',')| ::
              && ParsePiece(Split(wire, ',')[i]) == Err(r.error)
              && forall j | 0 <= j < i :: ParsePiece(Split(wire, ',')[j]).Ok?
  {
    ParsePieces(Split(wire, ','))
  }

  /** The text of one move: its direction's letter and its distance. */
  function ShowMove(m: Move): (s: string)
    ensures ',' !in s
    ensures ParsePiece(s) == Ok(m)
  {
    var s := Name(m.direction) + Show(m.distance);
    assert s[..1] == Name(m.direction) && s[1..] == Show(m.distance);
    s
  }

  /** The texts of a list of moves. */
  function ShowMoves(moves: seq<Move>): (pieces: seq<string>)
    ensures |pieces| == |moves|
    ensures forall i | 0 <= i < |moves| :: pieces[i] == ShowMove(moves[i])
    decreases |moves|
  {
    if |moves| == 0 then [] else [ShowMove(moves[0])] + ShowMoves(moves[1..])
  }

  /** The text of a wire: its moves with commas between. */
  function ShowWire(moves: seq<Move>): string
    requires |moves| >= 1
  {
    Join(ShowMoves(moves), ',')
  }

  /** Parsing the text of a wire gives its moves back. */
  lemma ParseShowWire(moves: seq<Move>)
    requires |moves| >= 1
    ensures ParseWire(ShowWire(moves)) == Ok(moves)
  {
    var pieces := ShowMoves(moves);
    SplitJoin(pieces, ',');
    ParsePiecesEach(pieces, moves);
  }

  /** The converse of `ParsePieces`'s contract: when every piece parses,
      the list parses to their moves. */
  lemma {:induction false} ParsePiecesEach(pieces: seq<string>, moves: seq<Move>)
    requires |pieces| == |moves|
    requires forall i | 0 <= i < |pieces| :: ParsePiece(pieces[i]) == Ok(moves[i])
    ensures ParsePieces(pieces) == Ok(moves)
    decreases |pieces|
  {
    if |pieces| > 0 {
      assert forall i | 0 <= i < |pieces| - 1 :: pieces[1..][i] == pieces[i + 1] && moves[1..][i] == moves[i + 1];
      ParsePiecesEach(pieces[1..], moves[1..]);
      ParsePiecesCons(pieces, moves[0], moves[1..]);
      assert moves == [moves[0]] + moves[1..];
    }
  }

  /** A list of pieces parses when its first piece and the rest do. */
  lemma ParsePiecesCons(pieces: seq<string>, m: Move, rest: seq<Move>)
    requires |pieces| > 0 && ParsePiece(pieces[0]) == Ok(m) && ParsePieces(pieces[1..]) == Ok(rest)
    ensures ParsePieces(pieces) == Ok([m] + rest)
  {
  }

  /** A direction's letter followed by decimal digits parses to a move of
      that many steps. */
  lemma ParseDigitsPiece(d: Direction, digits: string)
    requires |digits| > 0 && AllDigits(digits)
    ensures ParsePiece(Name(d) + digits) == Ok(Move(d, DigitsValue(digits)))
  {
    var s := Name(d) + digits;
    assert s[..1] == Name(d) && s[1..] == digits;
    ParseName(d);
  }

  /** The example of `test_parse_wire_to_vec`, a leading zero included. */
  lemma ParseWireExample()
    ensures ParseWire("U16,U07,U1,R9,L6,D9") ==
              Ok([Move(U, 16), Move(U, 7), Move(U, 1), Move(R, 9), Move(L, 6), Move(D, 9)])
  {
    var pieces := ["U16", "U07", "U1", "R9", "L6", "D9"];
    assert Join(pieces, ',') == "U16,U07,U1,R9,L6,D9";
    SplitJoin(pieces, ',');
    ExamplePieces();
  }

  /** The first bad piece decides the error: `X1,` fails on the direction
      of `X1`, not on the empty piece after the comma. */
  lemma FirstBadPieceExample()
    ensures ParseWire("X1,") == Err(BadDirection("X"))
  {
    assert Join(["X1", ""], ',') == "X1,";
    SplitJoin(["X1", ""], ',');
    assert "X1"[..1] == "X";
    assert ParsePiece("X1") == Err(BadDirection("X"));
  }

  /** The pieces of that example together. */
  lemma ExamplePieces()
    ensures ParsePieces(["U16", "U07", "U1", "R9", "L6", "D9"]) ==
              Ok([Move(U, 16), Move(U, 7), Move(U, 1), Move(R, 9), Move(L, 6), Move(D, 9)])
  {
    PieceExamples();
    ParsePiecesEach(["U16", "U07", "U1", "R9", "L6", "D9"],
                    [Move(U, 16), Move(U, 7), Move(U, 1), Move(R, 9), Move(L, 6), Move(D, 9)]);
  }

  /** The pieces of that example, one by one. */
  lemma PieceExamples()
    ensures ParsePiece("U16") == Ok(Move(U, 16)) && ParsePiece("U07") == Ok(Move(U, 7))
    ensures ParsePiece("U1") == Ok(Move(U, 1)) && ParsePiece("R9") == Ok(Move(R, 9))
    ensures ParsePiece("L6") == Ok(Move(L, 6)) && ParsePiece("D9") == Ok(Move(D, 9))
  {
    UpPieceExamples();
    ParseDigitsPiece(R, "9");
    ParseDigitsPiece(L, "6");
    ParseDigitsPiece(D, "9");
    assert "R9" == Name(R) + "9" && "L6" == Name(L) + "6" && "D9" == Name(D) + "9";
  }

  /** The three upward pieces, one with a leading zero. */
  lemma UpPieceExamples()
    ensures ParsePiece("U16") == Ok(Move(U, 16)) && ParsePiece("U07") == Ok(Move(U, 7))
    ensures ParsePiece("U1") == Ok(Move(U, 1))
  {
    DigitsExamples();
    LeadingZeroValue("7");
    ParseDigitsPiece(U, "16");
    ParseDigitsPiece(U, "07");
    ParseDigitsPiece(U, "1");
    assert "U16" == Name(U) + "16" && "U07" == Name(U) + "07" && "U1" == Name(U) + "1";
  }

  /** The values of two digit strings of that example. */
  lemma DigitsExamples()
    ensures DigitsValue("16") == 16 && DigitsValue("7") == 7
  {
    var sixteen := "16";
    assert sixteen[..1] == "1";
    assert DigitsValue("1") == 1;
  }
}
