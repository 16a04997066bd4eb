/**
 * Grid geometry of the 9x9 sea map: clamping a perception offset onto the grid
 * (the source's `Map.getPerceptionBounds`) and the neighbour sets the two
 * scenarios give a cell (`Map.getNeighbourCells`).
 */
module Geometry {
  import opened Agents

  function ClampAxis(v: int): int { if v > 8 then 8 else if v < 0 then 0 else v }

  /**
   * `getPerceptionBounds(x1, x2, y1, y2)`: the point (x1 + x2, y1 + y2) with
   * each coordinate clamped to [0, 8] on its own. The result is on the grid,
   * and equals the raw sum on every axis where that sum is in range.
   */
  function PerceptionBounds(x1: int, x2: int, y1: int, y2: int): (p: Point)
    ensures OnGrid(p)
    ensures 0 <= x1 + x2 <= 8 ==> p.x == x1 + x2
    ensures 0 <= y1 + y2 <= 8 ==> p.y == y1 + y2
  {
    Point(ClampAxis(x1 + x2), ClampAxis(y1 + y2))
  }

  /** No grid point is closer to the raw sum, on either axis, than the clamped one. */
  lemma PerceptionBoundsNearest(x1: int, x2: int, y1: int, y2: int, q: Point)
    requires OnGrid(q)
    ensures var p := PerceptionBounds(x1, x2, y1, y2);
      Abs(p.x - (x1 + x2)) <= Abs(q.x - (x1 + x2)) && Abs(p.y - (y1 + y2)) <= Abs(q.y - (y1 + y2))
  {
  }

  /** The clamped cell an agent at `p` affects through offset `o`. */
  function Bounded(p: Point, o: Point): Point { PerceptionBounds(p.x, o.x, p.y, o.y) }

  /** The unclamped cell `o` away from `p`. */
  function Translate(p: Point, o: Point): Point { Point(p.x + o.x, p.y + o.y) }

  /** Chebyshev distance between two cells. */
  function Chebyshev(p: Point, q: Point): int { Norm(Point(p.x - q.x, p.y - q.y)) }

  /**
   * Scenario 1 of `getNeighbourCells`: every translation of `p` by one of
   * Jack's perception offsets that lands on the grid. A translation that
   * leaves the grid is dropped, not clamped.
   */
  function PerceivedNeighbours(offsets: seq<Point>, p: Point): (r: set<Point>)
    ensures forall q :: q in r <==>
      OnGrid(q) && exists k :: 0 <= k < |offsets| && q == Translate(p, offsets[k])
  {
    if offsets == [] then {}
    else
      var rest := PerceivedNeighbours(offsets[..|offsets| - 1], p);
      var q := Translate(p, offsets[|offsets| - 1]);
      assert forall k :: 0 <= k < |offsets| - 1 ==> offsets[..|offsets| - 1][k] == offsets[k];
      if OnGrid(q) then rest + {q} else rest
  }

  /**
   * The offsets the scenario-2 double loop visits: i and j from -1 to 1, i
   * outermost, skipping (0, 0).
   */
  const RingOffsets: seq<Point> :=
    [Point(-1, -1), Point(-1, 0), Point(-1, 1),
     Point(0, -1), Point(0, 1),
     Point(1, -1), Point(1, 0), Point(1, 1)]

  /**
   * Scenario 2 of `getNeighbourCells`: the cells at Chebyshev distance exactly
   * one from `p` that lie on the grid; never `p` itself.
   */
  function RingNeighbours(p: Point): (r: set<Point>)
    ensures forall q :: q in r <==> OnGrid(q) && q != p && Chebyshev(p, q) <= 1
  {
    var r := PerceivedNeighbours(RingOffsets, p);
    forall q | OnGrid(q) && q != p && Chebyshev(p, q) <= 1
      ensures q in r
    {
      var o := Point(q.x - p.x, q.y - p.y);
      assert o in RingOffsets;
      var k :| 0 <= k < |RingOffsets| && RingOffsets[k] == o;
      assert q == Translate(p, RingOffsets[k]);
    }
    r
  }

  /**
   * `getNeighbourCells`: branches on the map's current scenario. Scenario 1
   * uses Jack's perception offsets (fixed when Jack was built), scenario 2 the
   * plain eight-cell ring, and any other scenario yields no neighbours.
   */
  function Neighbours(scenario: int, jackPerception: seq<Point>, p: Point): (r: set<Point>)
    ensures forall q :: q in r ==> OnGrid(q)
    ensures scenario == 2 ==> forall q :: q in r <==> OnGrid(q) && q != p && Chebyshev(p, q) <= 1
    ensures scenario != 1 && scenario != 2 ==> r == {}
  {
    if scenario == 1 then PerceivedNeighbours(jackPerception, p)
    else if scenario == 2 then RingNeighbours(p)
    else {}
  }

  /**
   * With the perception Jack gets in scenario 1, the scenario-1 neighbours are
   * exactly the scenario-2 ring.
   */
  lemma {:induction false} ScenarioOneIsRing(jackPerception: seq<Point>, p: Point)
    requires jackPerception == Perception(Jack, 1)
    ensures Neighbours(1, jackPerception, p) == Neighbours(2, jackPerception, p)
  {
    var a, b := Neighbours(1, jackPerception, p), Neighbours(2, jackPerception, p);
    forall q | q in b ensures q in a {
      var o := Point(q.x - p.x, q.y - p.y);
      PerceptionShape(Jack, 1, o);
      var k :| 0 <= k < |jackPerception| && jackPerception[k] == o;
      assert q == Translate(p, jackPerception[k]);
    }
    forall q | q in a ensures q in b {
      var k :| 0 <= k < |jackPerception| && q == Translate(p, jackPerception[k]);
      PerceptionShape(Jack, 1, jackPerception[k]);
    }
  }

  /**
   * With the perception Jack gets in scenario 2 and the map switched to
   * scenario 1, a cell's neighbours are the on-grid ring cells plus the on-grid
   * cells two steps away along an axis.
   */
  lemma {:induction false} ExtendedPerceptionReach(jackPerception: seq<Point>, p: Point, q: Point)
    requires jackPerception == Perception(Jack, 2)
    ensures q in Neighbours(1, jackPerception, p) <==>
      OnGrid(q) && (Chebyshev(p, q) == 1 ||
                    (Abs(q.x - p.x) + Abs(q.y - p.y) == 2 && (q.x == p.x || q.y == p.y)))
  {
    var o := Point(q.x - p.x, q.y - p.y);
    PerceptionShape(Jack, 2, o);
    if OnGrid(q) && o in jackPerception {
      var k :| 0 <= k < |jackPerception| && jackPerception[k] == o;
      assert q == Translate(p, jackPerception[k]);
    }
    if q in Neighbours(1, jackPerception, p) {
      var k :| 0 <= k < |jackPerception| && q == Translate(p, jackPerception[k]);
      assert jackPerception[k] == o;
    }
  }
}
