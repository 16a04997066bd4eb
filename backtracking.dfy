/**
 * The backtracking engine (`Solver.Backtracking`): a depth-first search over
 * the map that keeps, in every cell, the shortest depth at which the search
 * reached it (`currentBestPath`), never goes deeper than 26 steps, marks the
 * cells on the current branch as visited and unmarks them on the way back,
 * and traces the route found back through the stored depths.
 */
module BacktrackingSearch {
  import opened Agents
  import opened Geometry
  import opened Hazards
  import opened Grid
  import opened Routes

  /**
   * What a backtracking search may do to a cell: record in it a depth of at
   * most 26, and, when `killing`, change its danger and walkability by a
   * kill, which only opens cells.
   */
  predicate Explored(before: Cell, after: Cell, killing: bool)
  {
    && after == before.(bestPath := after.bestPath, walkable := after.walkable, danger := after.danger)
    && (after.bestPath == before.bestPath || 0 <= after.bestPath <= 26)
    && (before.walkable ==> after.walkable)
    && (!killing ==> after.walkable == before.walkable && after.danger == before.danger)
  }

  lemma ExploredTwice(a: Cell, b: Cell, c: Cell, first: bool, second: bool, killing: bool)
    requires Explored(a, b, first) && Explored(b, c, second)
    requires (first ==> killing) && (second ==> killing)
    ensures Explored(a, c, killing)
  {
  }

  /** The three result lists of the engine; a search towards any other cell records nothing. */
  datatype Slot = ToTortuga | FromTortuga | Straight | Unrecorded

  /**
   * `buffer` is what `tracePath` leaves for a goal `finish` reached at depth
   * `depth`: `finish` followed by a walk `trail` of at most `depth` steps
   * back from it, reversed when all `depth` steps were made.
   */
  ghost predicate Traces(adj: Point -> set<Point>, buffer: seq<Point>, finish: Point, trail: seq<Point>, depth: int)
  {
    IsWalk(adj, finish, trail) && |trail| <= depth && buffer == Traced([finish], trail, depth)
  }

  /**
   * What `tracePath` returns once it has appended `trail` to `path`: the
   * list reversed when all `steps` steps were made, as it is otherwise.
   */
  function Traced(path: seq<Point>, trail: seq<Point>, steps: int): (r: seq<Point>)
    ensures |r| == |path| + |trail|
    ensures |trail| == steps ==> r == Reversed(path + trail)
    ensures |trail| != steps ==> r == path + trail
  {
    if |trail| == steps then Reversed(path + trail) else path + trail
  }

  /** Appending one step and tracing the rest is tracing the whole. */
  lemma TracedCons(path: seq<Point>, next: Point, trail: seq<Point>, steps: int)
    ensures Traced(path + [next], trail, steps - 1) == Traced(path, [next] + trail, steps)
  {
    assert path + [next] + trail == path + ([next] + trail);
  }

  /** A search result as a route length: `Integer.MAX_VALUE` means no route. */
  function Found(result: int): (d: Option<int>)
    ensures d.Some? <==> result != IntMax
  {
    if result != IntMax then Some(result) else None
  }

  /** The length of the route through Tortuga, when both of its searches found one. */
  function ThroughTortuga(toTortuga: int, fromTortuga: Option<int>): (d: Option<int>)
    ensures d.Some? <==> toTortuga != IntMax && fromTortuga.Some? && fromTortuga.value != IntMax
  {
    if toTortuga != IntMax && fromTortuga.Some? && fromTortuga.value != IntMax
    then Some(toTortuga + fromTortuga.value) else None
  }

  /**
   * The list `findShortestPath` builds for the route `Choose` picked: the
   * route to Tortuga without Tortuga's cell followed by the route from
   * Tortuga, or the straight route, or no route.
   */
  function Collected(choice: Choice, toTortuga: seq<Point>, fromTortuga: seq<Point>, straight: seq<Point>,
                     tortuga: Point): (r: Option<seq<Point>>)
    ensures r.None? <==> choice == NoRoute
    ensures choice == Direct ==> r == Some(straight)
    ensures choice == ViaTortuga ==>
      && |r.value| == |Without(toTortuga, tortuga)| + |fromTortuga|
      && r.value[..|r.value| - |fromTortuga|] == Without(toTortuga, tortuga)
      && r.value[|r.value| - |fromTortuga|..] == fromTortuga
  {
    match choice
    case NoRoute => None
    case Direct => Some(straight)
    case ViaTortuga =>
      var first := Without(toTortuga, tortuga);
      assert (first + fromTortuga)[..|first|] == first;
      Some(first + fromTortuga)
  }

  /**
   * When the search that produced the chosen list went all the way back
   * (its trace has as many steps as the depth it reported), the list
   * `findShortestPath` returns ends on the goal the search was run towards.
   */
  lemma CollectedEnds(adj: Point -> set<Point>, choice: Choice, toTortuga: seq<Point>, fromTortuga: seq<Point>,
                      straight: seq<Point>, tortuga: Point, chest: Point,
                      straightTrail: seq<Point>, straightDepth: int, fromTrail: seq<Point>, fromDepth: int)
    requires choice == Direct ==> Traces(adj, straight, chest, straightTrail, straightDepth) && |straightTrail| == straightDepth
    requires choice == ViaTortuga ==> Traces(adj, fromTortuga, chest, fromTrail, fromDepth) && |fromTrail| == fromDepth
    ensures var r := Collected(choice, toTortuga, fromTortuga, straight, tortuga);
      r.Some? ==> |r.value| >= 1 && r.value[|r.value| - 1] == chest
  {
    var r := Collected(choice, toTortuga, fromTortuga, straight, tortuga);
    if choice == Direct {
      assert straight == Reversed([chest] + straightTrail);
      assert straight[|straight| - 1] == ([chest] + straightTrail)[0];
    } else if choice == ViaTortuga {
      assert fromTortuga == Reversed([chest] + fromTrail);
      assert fromTortuga[|fromTortuga| - 1] == ([chest] + fromTrail)[0];
      assert r.value[|r.value| - |fromTortuga|..] == fromTortuga;
      assert r.value[|r.value| - 1] == fromTortuga[|fromTortuga| - 1];
    }
  }

  /** `isCorrect` never lets the Chest and Tortuga share a cell. */
  lemma ChestApart(agents: seq<Agent>)
    requires Placed(agents) && ValidPlacement(agents)
    ensures agents[ChestIx].pos != agents[TortugaIx].pos
  {
    assert agents[ChestIx].kind == Chest && agents[TortugaIx].kind == Tortuga;
    assert !SharingAllowed(agents[ChestIx].kind, agents[TortugaIx].kind);
  }

  /**
   * A scenario-1 placement that `isCorrect` accepts, with the Kraken at
   * (4, 6), Davy Jones right below it and Tortuga two cells above it.
   */
  const Sample: seq<Agent> :=
    [Agent(Jack, Point(0, 0), Surrounding), Agent(DavyJones, Point(4, 7), Surrounding),
     Agent(Kraken, Point(4, 6), Orthogonal), Agent(Rock, Point(0, 8), [SelfOffset]),
     Agent(Chest, Point(8, 0), [SelfOffset]), Agent(Tortuga, Point(4, 4), [SelfOffset])]

  /**
   * The kill block guards a repeated kill only by the Kraken cell's danger
   * level, and each call gets `krakenIsAlive` from its caller, so a kill made
   * below one child of a cell is not seen by that cell's later children. On
   * `Sample`, the search from Tortuga (not itself next to the Kraken) has the
   * walkable children (3, 5) and (5, 5), both next to the Kraken. After the
   * kill made below the first one, the Kraken's cell still holds its alias
   * and a danger level other than zero (Davy Jones's zone covers it), so the
   * kill block below the second one kills again: that second kill leaves
   * Davy Jones's own cell walkable, and the cell above the Kraken walkable
   * with danger -1. The refill before this phase gives every cell the danger
   * and walkability of a fresh fill (see `Filled`), which is what is used here.
   */
  lemma RepeatedKill(agents: seq<Agent>)
    requires agents == Sample
    ensures Placed(agents) && ValidPlacement(agents)
    ensures var tortuga := agents[TortugaIx].pos;
      Point(3, 5) in Neighbours(1, Surrounding, tortuga) && Point(5, 5) in Neighbours(1, Surrounding, tortuga)
    ensures var kraken := agents[KrakenIx].pos;
      kraken in Neighbours(1, Surrounding, Point(3, 5)) && kraken in Neighbours(1, Surrounding, Point(5, 5))
    ensures Filled(NewCell, false, agents, Point(3, 5)).walkable && Filled(NewCell, false, agents, Point(5, 5)).walkable
    ensures var kraken := agents[KrakenIx].pos;
      var once := AfterKill(Filled(NewCell, false, agents, kraken), kraken, kraken);
      KrakenLive(once)
    ensures var davy := agents[1].pos;
      var twice := AfterKill(AfterKill(Filled(NewCell, false, agents, davy), Point(4, 6), davy), Point(4, 6), davy);
      'D' in twice.agents && twice.walkable && DangerAt(agents, davy) == 2
    ensures var above := Point(4, 5);
      var twice := AfterKill(AfterKill(Filled(NewCell, false, agents, above), Point(4, 6), above), Point(4, 6), above);
      twice.danger == -1 && !Balanced(twice)
  {
    SamplePlacement(agents);
    SampleNeighbours();
    SampleStarts(agents);
    FirstKill(agents);
    SecondKill(agents);
  }

  /** After one kill the Kraken's cell still passes the guard of the kill block. */
  lemma FirstKill(agents: seq<Agent>)
    requires agents == Sample
    ensures var kraken := Point(4, 6);
      var once := AfterKill(Filled(NewCell, false, agents, kraken), kraken, kraken);
      'K' in once.agents && once.danger == 1
  {
    SampleDangers(agents);
    AliasPresent(agents, Point(4, 6), KrakenIx);
    NoRockAtKraken(agents);
  }

  /** What a second kill does to Davy Jones's cell and to the cell above the Kraken. */
  lemma SecondKill(agents: seq<Agent>)
    requires agents == Sample
    ensures var davy := Point(4, 7);
      var twice := AfterKill(AfterKill(Filled(NewCell, false, agents, davy), Point(4, 6), davy), Point(4, 6), davy);
      'D' in twice.agents && twice.walkable && DangerAt(agents, davy) == 2
    ensures var above := Point(4, 5);
      var twice := AfterKill(AfterKill(Filled(NewCell, false, agents, above), Point(4, 6), above), Point(4, 6), above);
      twice.danger == -1 && !Balanced(twice)
  {
    SampleDangers(agents);
    KrakenKillZone();
    AliasPresent(agents, Point(4, 7), 1);
  }

  lemma NoRockAtKraken(agents: seq<Agent>)
    requires agents == Sample
    ensures 'R' !in AliasesAt(agents, Point(4, 6))
  {
    if 'R' in AliasesAt(agents, Point(4, 6)) {
      AliasSource(agents, Point(4, 6), 'R');
    }
  }

  lemma KrakenKillZone()
    ensures KillZone(Orthogonal, Point(4, 6)) == {Point(4, 5), Point(3, 6), Point(5, 6), Point(4, 7)}
  {
    var k := Point(4, 6);
    assert Bounded(k, Orthogonal[0]) == Point(4, 5) && Bounded(k, Orthogonal[1]) == Point(3, 6);
    assert Bounded(k, Orthogonal[2]) == Point(5, 6) && Bounded(k, Orthogonal[3]) == Point(4, 7);
  }

  lemma SampleNeighbours()
    ensures Point(3, 5) in Neighbours(1, Surrounding, Point(4, 4)) && Point(5, 5) in Neighbours(1, Surrounding, Point(4, 4))
    ensures Point(4, 6) in Neighbours(1, Surrounding, Point(3, 5)) && Point(4, 6) in Neighbours(1, Surrounding, Point(5, 5))
  {
    ScenarioOneIsRing(Surrounding, Point(4, 4));
    ScenarioOneIsRing(Surrounding, Point(3, 5));
    ScenarioOneIsRing(Surrounding, Point(5, 5));
  }

  lemma SampleDangers(agents: seq<Agent>)
    requires agents == Sample
    ensures DangerAt(agents, Point(4, 6)) == 2 && DangerAt(agents, Point(4, 7)) == 2
    ensures DangerAt(agents, Point(4, 5)) == 1
  {
    SampleZones(agents);
    DangerOfSix(agents, Point(4, 6));
    DangerOfSix(agents, Point(4, 7));
    DangerOfSix(agents, Point(4, 5));
  }

  lemma SampleStarts(agents: seq<Agent>)
    requires agents == Sample
    ensures DangerAt(agents, Point(3, 5)) == 0 && DangerAt(agents, Point(5, 5)) == 0
  {
    SampleZones(agents);
    DangerOfSix(agents, Point(3, 5));
    DangerOfSix(agents, Point(5, 5));
  }

  lemma SamplePlaced(agents: seq<Agent>)
    requires agents == Sample
    ensures Placed(agents)
  {
  }

  lemma SamplePlacement(agents: seq<Agent>)
    requires agents == Sample
    ensures Placed(agents) && ValidPlacement(agents)
  {
    SamplePlaced(agents);
    SampleApart(agents);
    forall i, j | 0 <= i < 6 && 0 <= j < 6 && Dangerous(agents[i].kind) && agents[j].kind in {Tortuga, Chest}
      ensures !Reaches(agents[i], agents[j].pos)
    {
      assert (i == 1 || i == 2) && (j == 4 || j == 5);
      FarNotReached(agents[i], agents[j].pos);
    }
  }

  lemma SampleApart(agents: seq<Agent>)
    requires agents == Sample
    ensures forall i, j :: 0 <= i < 6 && 0 <= j < 6 && i != j ==> agents[i].pos != agents[j].pos
  {
    var xs := [0, 4, 4, 0, 8, 4];
    var ys := [0, 7, 6, 8, 0, 4];
    assert forall i :: 0 <= i < 6 ==> agents[i].pos == Point(xs[i], ys[i]);
  }

  /** A hazard never reaches a cell more than one step away from it. */
  lemma FarNotReached(a: Agent, p: Point)
    requires Dangerous(a.kind) && a.perception == Perception(a.kind, 1) && Chebyshev(a.pos, p) > 1
    ensures !Reaches(a, p)
  {
    forall k | 0 <= k < |a.perception| ensures Translate(a.pos, a.perception[k]) != p {
      PerceptionShape(a.kind, 1, a.perception[k]);
    }
  }

  /** The zones of the two hazards of `Sample`, written out. */
  lemma SampleZones(agents: seq<Agent>)
    requires agents == Sample
    ensures Zone(agents[1]) ==
      {Point(3, 6), Point(4, 6), Point(5, 6), Point(3, 7), Point(5, 7), Point(3, 8), Point(4, 8), Point(5, 8)}
    ensures Zone(agents[KrakenIx]) == {Point(4, 5), Point(3, 6), Point(5, 6), Point(4, 7)}
  {
    var d, k := agents[1], agents[KrakenIx];
    forall i | 0 <= i < 8 ensures Bounded(d.pos, d.perception[i]) == Translate(d.pos, Surrounding[i]) { }
    forall i | 0 <= i < 4 ensures Bounded(k.pos, k.perception[i]) == Translate(k.pos, Orthogonal[i]) { }
    assert Bounded(d.pos, d.perception[0]) in Zone(d) && Bounded(d.pos, d.perception[1]) in Zone(d);
    assert Bounded(d.pos, d.perception[2]) in Zone(d) && Bounded(d.pos, d.perception[3]) in Zone(d);
    assert Bounded(d.pos, d.perception[4]) in Zone(d) && Bounded(d.pos, d.perception[5]) in Zone(d);
    assert Bounded(d.pos, d.perception[6]) in Zone(d) && Bounded(d.pos, d.perception[7]) in Zone(d);
    assert Bounded(k.pos, k.perception[0]) in Zone(k) && Bounded(k.pos, k.perception[1]) in Zone(k);
    assert Bounded(k.pos, k.perception[2]) in Zone(k) && Bounded(k.pos, k.perception[3]) in Zone(k);
  }

  /** The guard of the kill block: the cell holds the Kraken's alias and still has a danger level. */
  predicate KrakenLive(c: Cell) { 'K' in c.agents && c.danger != 0 }

  class Backtracking {
    const seaMap: Map
    var bestPathToTortuga: seq<Point>
    var bestPathFromTortugaToEnd: seq<Point>
    var bestStraightPath: seq<Point>
    /** The cells on the branch the search is exploring. */
    const visited: array2<bool>

    constructor (seaMap: Map)
      requires seaMap.Valid()
      ensures Valid() && this.seaMap == seaMap && fresh(visited)
      ensures bestPathToTortuga == [] && bestPathFromTortugaToEnd == [] && bestStraightPath == []
      ensures forall x, y :: 0 <= x < 9 && 0 <= y < 9 ==> !visited[x, y]
    {
      this.seaMap := seaMap;
      bestPathToTortuga, bestPathFromTortugaToEnd, bestStraightPath := [], [], [];
      visited := new bool[9, 9]((x, y) => false);
    }

    ghost predicate Valid()
      reads this, seaMap
    {
      seaMap.Valid() && visited.Length0 == 9 && visited.Length1 == 9
    }

    /** `canWalkThrough`: the cell is walkable and not on the current branch. */
    predicate CanWalkThrough(p: Point)
      reads this, seaMap, seaMap.cells, visited
      requires Valid() && OnGrid(p)
    {
      seaMap.At(p).walkable && !visited[p.x, p.y]
    }

    /** A cell the search may step on is one of the map's walkable cells, and off the current branch. */
    lemma WalkThroughWalkable(p: Point)
      requires Valid() && OnGrid(p)
      ensures CanWalkThrough(p) <==> p in seaMap.WalkableCells() && !visited[p.x, p.y]
    {
    }

    /** `hasUnvisitedNeighbours`: some neighbour of `cell` can be walked through. */
    method HasUnvisitedNeighbours(cell: Point) returns (b: bool)
      requires Valid()
      ensures b <==> exists n :: n in seaMap.Adjacent(cell) && CanWalkThrough(n)
    {
      var rest := seaMap.Adjacent(cell);
      while rest != {}
        invariant rest <= seaMap.Adjacent(cell)
        invariant forall n :: n in seaMap.Adjacent(cell) - rest ==> !CanWalkThrough(n)
        decreases rest
      {
        var n :| n in rest;
        rest := rest - {n};
        if CanWalkThrough(n) {
          return true;
        }
      }
      return false;
    }

    /** The search loop of `tracePath`: the first neighbour of `cell` whose depth is one less, if any. */
    method Predecessor(cell: Point, ghost adj: Point -> set<Point>) returns (found: bool, n: Point)
      requires Valid() && OnGrid(cell) && adj == seaMap.Adjacency()
      ensures found ==> n in adj(cell) && OnGrid(n) && seaMap.At(cell).bestPath == seaMap.At(n).bestPath + 1
      ensures !found ==> forall m :: m in adj(cell) ==> OnGrid(m) && seaMap.At(cell).bestPath != seaMap.At(m).bestPath + 1
    {
      var neighbours := seaMap.Adjacent(cell);
      var rest := neighbours;
      while rest != {}
        invariant rest <= neighbours
        invariant forall m :: m in neighbours - rest ==> seaMap.At(cell).bestPath != seaMap.At(m).bestPath + 1
        decreases rest
      {
        n :| n in rest;
        rest := rest - {n};
        if seaMap.At(cell).bestPath == seaMap.At(n).bestPath + 1 {
          return true, n;
        }
      }
      return false, cell;
    }

    /**
     * `trail` is a walk from `cell` down the recorded depths: every step
     * lands on a neighbour whose depth is one less.
     */
    ghost predicate Descends(adj: Point -> set<Point>, cell: Point, trail: seq<Point>)
      reads this, seaMap, seaMap.cells
      requires Valid() && OnGrid(cell)
    {
      && IsWalk(adj, cell, trail)
      && forall i :: 0 <= i < |trail| ==> OnGrid(trail[i]) && seaMap.At(trail[i]).bestPath == seaMap.At(cell).bestPath - (i + 1)
    }

    /** One step down the depths followed by a descent is a descent. */
    lemma DescendsCons(adj: Point -> set<Point>, cell: Point, next: Point, trail: seq<Point>)
      requires Valid() && OnGrid(cell) && OnGrid(next) && next in adj(cell)
      requires seaMap.At(cell).bestPath == seaMap.At(next).bestPath + 1
      requires Descends(adj, next, trail)
      ensures Descends(adj, cell, [next] + trail)
      ensures End(cell, [next] + trail) == End(next, trail)
    {
      WalkCons(adj, cell, next, trail);
      assert forall i :: 1 <= i < |trail| + 1 ==> ([next] + trail)[i] == trail[i - 1];
    }

    /**
     * `tracePath(cell, bestPath, path)`: from `cell`, step `bestPath` times to
     * a neighbour whose depth is one less, appending each; when all the steps
     * were made the list is reversed, otherwise it is left as it is.
     */
    method TracePath(cell: Point, bestPath: int, path: seq<Point>, ghost adj: Point -> set<Point>)
      returns (r: seq<Point>, ghost trail: seq<Point>)
      requires Valid() && OnGrid(cell) && bestPath >= 0 && adj == seaMap.Adjacency()
      decreases bestPath
      ensures |trail| <= bestPath
      ensures Descends(adj, cell, trail)
      ensures r == Traced(path, trail, bestPath)
      ensures |trail| < bestPath ==>
        forall n :: n in adj(End(cell, trail)) ==> seaMap.At(End(cell, trail)).bestPath != seaMap.At(n).bestPath + 1
    {
      if bestPath == 0 {
        return Reversed(path), [];
      }
      var found, n := Predecessor(cell, adj);
      if found {
        ghost var more;
        r, more := TracePath(n, bestPath - 1, path + [n], adj);
        trail := [n] + more;
        DescendsCons(adj, cell, n, more);
        TracedCons(path, n, more, bestPath);
        return;
      }
      return path, [];
    }

    /** The list a search towards `finish` records its route in. */
    function SlotFor(finish: Point, tortugaPassed: bool): Slot
      reads this, seaMap
      requires Valid()
    {
      if finish == seaMap.TortugaPos() then ToTortuga
      else if finish == seaMap.ChestPos() then (if tortugaPassed then FromTortuga else Straight)
      else Unrecorded
    }

    function Buffer(s: Slot): seq<Point>
      reads this
    {
      match s
      case ToTortuga => bestPathToTortuga
      case FromTortuga => bestPathFromTortugaToEnd
      case Straight => bestStraightPath
      case Unrecorded => []
    }

    /**
     * The goal branch of `shortestPath` after the minimum: the list chosen by
     * the goal and `tortugaPassed` becomes the trace of `depth` steps from the
     * goal; the other lists are kept.
     */
    method Arrive(finish: Point, depth: int, tortugaPassed: bool, ghost adj: Point -> set<Point>)
      returns (ghost trail: seq<Point>)
      requires Valid() && OnGrid(finish) && depth >= 0 && adj == seaMap.Adjacency()
      modifies this`bestPathToTortuga, this`bestPathFromTortugaToEnd, this`bestStraightPath
      ensures var slot := SlotFor(finish, tortugaPassed);
        && (slot != Unrecorded ==> Traces(adj, Buffer(slot), finish, trail, depth))
        && (forall s :: s != slot ==> Buffer(s) == old(Buffer(s)))
    {
      var slot := SlotFor(finish, tortugaPassed);
      if slot == Unrecorded {
        return [];
      }
      var route;
      route, trail := TracePath(finish, depth, [finish], adj);
      match slot {
        case ToTortuga => bestPathToTortuga := route;
        case FromTortuga => bestPathFromTortugaToEnd := route;
        case Straight => bestStraightPath := route;
      }
    }

    /**
     * The kill block of `shortestPath`: each neighbour of `cell` that holds
     * the Kraken's alias and has a danger level other than zero is killed
     * there, and its cell opened unless a Rock stands on it. Reports whether
     * a kill happened, which is whether such a neighbour existed beforehand.
     * On a map where the alias marks the Kraken's cell alone, the kill is the
     * one at the Kraken's cell.
     */
    method KillAdjacent(cell: Point) returns (killed: bool)
      requires Valid()
      modifies seaMap.cells
      ensures killed <==> exists n :: n in seaMap.Adjacent(cell) && KrakenLive(old(seaMap.At(n)))
      ensures forall x, y :: 0 <= x < 9 && 0 <= y < 9 ==> Opened(old(seaMap.cells[x, y]), seaMap.cells[x, y])
      ensures !killed ==> forall x, y :: 0 <= x < 9 && 0 <= y < 9 ==> seaMap.cells[x, y] == old(seaMap.cells[x, y])
      ensures killed && old(seaMap.KrakenMarked()) ==>
        var kraken := seaMap.agents[KrakenIx].pos;
        forall x, y :: 0 <= x < 9 && 0 <= y < 9 ==> seaMap.cells[x, y] == AfterKill(old(seaMap.cells[x, y]), kraken, Point(x, y))
    {
      killed := false;
      var neighbours := seaMap.Adjacent(cell);
      var rest := neighbours;
      ghost var first := cell;
      ghost var marked := seaMap.KrakenMarked();
      while rest != {}
        invariant rest <= neighbours
        invariant forall x, y :: 0 <= x < 9 && 0 <= y < 9 ==> Opened(old(seaMap.cells[x, y]), seaMap.cells[x, y])
        invariant !killed ==> forall x, y :: 0 <= x < 9 && 0 <= y < 9 ==> seaMap.cells[x, y] == old(seaMap.cells[x, y])
        invariant !killed ==> forall n :: n in neighbours - rest ==> !KrakenLive(old(seaMap.At(n)))
        invariant killed ==> first in neighbours - rest && KrakenLive(old(seaMap.At(first)))
        invariant killed && marked ==> first == seaMap.agents[KrakenIx].pos
        invariant killed && marked ==>
          forall x, y :: 0 <= x < 9 && 0 <= y < 9 ==> seaMap.cells[x, y] == AfterKill(old(seaMap.cells[x, y]), first, Point(x, y))
        decreases rest
      {
        var n :| n in rest;
        rest := rest - {n};
        assert seaMap.At(n).agents == old(seaMap.At(n)).agents;
        if KrakenLive(seaMap.At(n)) {
          if !killed {
            assert seaMap.At(n) == old(seaMap.At(n));
            first := n;
          } else if marked {
            assert false;
          }
          label Before:
          seaMap.KillAndClear(n);
          forall x, y | 0 <= x < 9 && 0 <= y < 9 ensures Opened(old(seaMap.cells[x, y]), seaMap.cells[x, y]) {
            OpenedTwice(old(seaMap.cells[x, y]), old@Before(seaMap.cells[x, y]), seaMap.cells[x, y]);
          }
          killed := true;
        }
      }
    }

    /**
     * The kill step of `shortestPath`: when Tortuga was passed, the Kraken is
     * alive in this call and `cell` has a neighbour to go on to, kill the
     * Kraken next to `cell`. Returns whether the Kraken is still alive, which
     * it stops being exactly when a kill happened; without a kill no cell
     * changes.
     */
    method KillStep(cell: Point, tortugaPassed: bool, krakenIsAlive: bool) returns (alive: bool)
      requires Valid()
      modifies seaMap.cells
      ensures alive <==>
        krakenIsAlive &&
        !(tortugaPassed && old(exists n :: n in seaMap.Adjacent(cell) && CanWalkThrough(n)) &&
          exists n :: n in seaMap.Adjacent(cell) && KrakenLive(old(seaMap.At(n))))
      ensures alive || !krakenIsAlive ==>
        forall x, y :: 0 <= x < 9 && 0 <= y < 9 ==> seaMap.cells[x, y] == old(seaMap.cells[x, y])
      ensures krakenIsAlive && !alive && old(seaMap.KrakenMarked()) ==>
        var kraken := seaMap.agents[KrakenIx].pos;
        forall x, y :: 0 <= x < 9 && 0 <= y < 9 ==> seaMap.cells[x, y] == AfterKill(old(seaMap.cells[x, y]), kraken, Point(x, y))
      ensures forall x, y :: 0 <= x < 9 && 0 <= y < 9 ==>
        Explored(old(seaMap.cells[x, y]), seaMap.cells[x, y], tortugaPassed && krakenIsAlive)
    {
      alive := krakenIsAlive;
      if tortugaPassed && krakenIsAlive {
        var open := HasUnvisitedNeighbours(cell);
        if open {
          var killed := KillAdjacent(cell);
          if killed {
            alive := false;
          }
        }
      }
    }

    /**
     * `shortestPath(current, finish, bestPath, currentPath, tortugaPassed,
     * krakenIsAlive)`. At the goal: the smaller of `bestPath` and
     * `currentPath`, with the goal's list traced at that depth. Elsewhere:
     * record `currentPath` as the cell's depth, mark it visited, kill the
     * Kraken next to it if Tortuga was passed and it is still alive here,
     * explore the neighbours, and unmark the cell.
     *
     * The result is never worse than `bestPath`, and when better it is a
     * depth between `currentPath` and 26; the visited marks come back as they
     * were; a cell only gets a depth of at most 26, and danger levels change
     * only when a kill was allowed. The goal's list is either kept or traced
     * anew at the depth returned, and it is traced anew whenever the result
     * improves on `bestPath`.
     */
    method ShortestPath(current: Point, finish: Point, bestPath: int, currentPath: int,
                        tortugaPassed: bool, krakenIsAlive: bool, ghost adj: Point -> set<Point>)
      returns (r: int, ghost trail: seq<Point>)
      requires Valid() && OnGrid(current) && OnGrid(finish) && adj == seaMap.Adjacency()
      requires 0 <= currentPath <= 26 && bestPath >= 0 && !visited[current.x, current.y]
      modifies seaMap.cells, visited, this`bestPathToTortuga, this`bestPathFromTortugaToEnd, this`bestStraightPath
      decreases 26 - currentPath, 1
      ensures r <= bestPath && (r == bestPath || currentPath <= r <= 26)
      ensures forall x, y :: 0 <= x < 9 && 0 <= y < 9 ==> visited[x, y] == old(visited[x, y])
      ensures forall x, y :: 0 <= x < 9 && 0 <= y < 9 ==>
        Explored(old(seaMap.cells[x, y]), seaMap.cells[x, y], tortugaPassed && krakenIsAlive)
      ensures var slot := SlotFor(finish, tortugaPassed);
        && (forall s :: s != slot ==> Buffer(s) == old(Buffer(s)))
        && (slot != Unrecorded ==> Buffer(slot) == old(Buffer(slot)) || Traces(adj, Buffer(slot), finish, trail, r))
        && (slot != Unrecorded && r < bestPath ==> Traces(adj, Buffer(slot), finish, trail, r))
    {
      if current == finish {
        r := if bestPath < currentPath then bestPath else currentPath;
        trail := Arrive(finish, r, tortugaPassed, adj);
        return;
      }
      var alive := Enter(current, currentPath, tortugaPassed, krakenIsAlive);
      r, trail := bestPath, [];
      var open := HasUnvisitedNeighbours(current);
      if open {
        r, trail := Explore(current, finish, bestPath, currentPath, tortugaPassed, alive, adj);
      }
      visited[current.x, current.y] := false;
    }

    /**
     * The start of `shortestPath` away from the goal: record `currentPath` as
     * the depth of `current`, mark it visited, and run the kill step.
     */
    method Enter(current: Point, currentPath: int, tortugaPassed: bool, krakenIsAlive: bool) returns (alive: bool)
      requires Valid() && OnGrid(current) && 0 <= currentPath <= 26
      modifies seaMap.cells, visited
      ensures alive ==> krakenIsAlive
      ensures visited[current.x, current.y]
      ensures forall x, y :: 0 <= x < 9 && 0 <= y < 9 && (x != current.x || y != current.y) ==> visited[x, y] == old(visited[x, y])
      ensures forall x, y :: 0 <= x < 9 && 0 <= y < 9 ==>
        Explored(old(seaMap.cells[x, y]), seaMap.cells[x, y], tortugaPassed && krakenIsAlive)
    {
      seaMap.cells[current.x, current.y] := seaMap.At(current).(bestPath := currentPath);
      visited[current.x, current.y] := true;
      label Marked:
      alive := KillStep(current, tortugaPassed, krakenIsAlive);
      forall x, y | 0 <= x < 9 && 0 <= y < 9
        ensures Explored(old(seaMap.cells[x, y]), seaMap.cells[x, y], tortugaPassed && krakenIsAlive)
      {
        assert Explored(old(seaMap.cells[x, y]), old@Marked(seaMap.cells[x, y]), false);
        ExploredTwice(old(seaMap.cells[x, y]), old@Marked(seaMap.cells[x, y]), seaMap.cells[x, y], false,
                      tortugaPassed && krakenIsAlive, tortugaPassed && krakenIsAlive);
      }
    }

    /**
     * The neighbour loop of `shortestPath`: every neighbour that can be walked
     * through, is less than 26 steps deep, and was reached no shallower
     * before gets depth `currentPath + 1` and is searched from, the best
     * result so far passed on.
     */
    method Explore(current: Point, finish: Point, bestPath: int, currentPath: int,
                   tortugaPassed: bool, krakenIsAlive: bool, ghost adj: Point -> set<Point>)
      returns (r: int, ghost trail: seq<Point>)
      requires Valid() && OnGrid(current) && OnGrid(finish) && adj == seaMap.Adjacency()
      requires 0 <= currentPath <= 26 && bestPath >= 0
      modifies seaMap.cells, visited, this`bestPathToTortuga, this`bestPathFromTortugaToEnd, this`bestStraightPath
      decreases 26 - currentPath, 0
      ensures r <= bestPath && (r == bestPath || currentPath < r <= 26)
      ensures forall x, y :: 0 <= x < 9 && 0 <= y < 9 ==> visited[x, y] == old(visited[x, y])
      ensures forall x, y :: 0 <= x < 9 && 0 <= y < 9 ==>
        Explored(old(seaMap.cells[x, y]), seaMap.cells[x, y], tortugaPassed && krakenIsAlive)
      ensures var slot := SlotFor(finish, tortugaPassed);
        && (forall s :: s != slot ==> Buffer(s) == old(Buffer(s)))
        && (slot != Unrecorded ==> Buffer(slot) == old(Buffer(slot)) || Traces(adj, Buffer(slot), finish, trail, r))
        && (slot != Unrecorded && r < bestPath ==> Traces(adj, Buffer(slot), finish, trail, r))
    {
      ghost var slot := SlotFor(finish, tortugaPassed);
      r, trail := bestPath, [];
      var neighbours := seaMap.Adjacent(current);
      var rest := neighbours;
      while rest != {}
        invariant rest <= neighbours
        invariant r <= bestPath && (r == bestPath || currentPath < r <= 26)
        invariant forall x, y :: 0 <= x < 9 && 0 <= y < 9 ==> visited[x, y] == old(visited[x, y])
        invariant forall x, y :: 0 <= x < 9 && 0 <= y < 9 ==>
          Explored(old(seaMap.cells[x, y]), seaMap.cells[x, y], tortugaPassed && krakenIsAlive)
        invariant forall s :: s != slot ==> Buffer(s) == old(Buffer(s))
        invariant slot != Unrecorded ==> Buffer(slot) == old(Buffer(slot)) || Traces(adj, Buffer(slot), finish, trail, r)
        invariant slot != Unrecorded && r < bestPath ==> Traces(adj, Buffer(slot), finish, trail, r)
        decreases rest
      {
        var n :| n in rest;
        rest := rest - {n};
        if CanWalkThrough(n) && currentPath <= 25 && currentPath < seaMap.At(n).bestPath {
          seaMap.cells[n.x, n.y] := seaMap.At(n).(bestPath := currentPath + 1);
          ghost var before := Buffer(slot);
          var deeper;
          ghost var sub;
          deeper, sub := ShortestPath(n, finish, r, currentPath + 1, tortugaPassed, krakenIsAlive, adj);
          if deeper < r || Buffer(slot) != before {
            trail := sub;
          }
          r := deeper;
        }
      }
    }

    /** No cell is marked visited. */
    ghost predicate Unvisited()
      reads this, seaMap, visited
      requires Valid()
    {
      forall x, y :: 0 <= x < 9 && 0 <= y < 9 ==> !visited[x, y]
    }

    /**
     * One of the three searches of `findShortestPath`, from `start` with no
     * route known: it reports a depth of at most 26 or `Integer.MAX_VALUE`,
     * and on success leaves the goal's list as the trace of that depth.
     */
    method Phase(start: Point, finish: Point, tortugaPassed: bool, ghost adj: Point -> set<Point>)
      returns (r: int, ghost trail: seq<Point>)
      requires Valid() && OnGrid(start) && OnGrid(finish) && adj == seaMap.Adjacency() && Unvisited()
      modifies seaMap.cells, visited, this`bestPathToTortuga, this`bestPathFromTortugaToEnd, this`bestStraightPath
      ensures Unvisited()
      ensures r == IntMax || 0 <= r <= 26
      ensures forall s :: s != SlotFor(finish, tortugaPassed) ==> Buffer(s) == old(Buffer(s))
      ensures r != IntMax && SlotFor(finish, tortugaPassed) != Unrecorded ==>
        Traces(adj, Buffer(SlotFor(finish, tortugaPassed)), finish, trail, r)
    {
      r, trail := ShortestPath(start, finish, IntMax, 0, tortugaPassed, true, adj);
    }

    /**
     * The second half of `findShortestPath`: search `start` to `tortuga`; if
     * that succeeded, reset the depths, refill the map and search `tortuga`
     * to `finish` with kills allowed. The straight route's list is kept.
     */
    method TortugaLegs(start: Point, tortuga: Point, finish: Point, ghost adj: Point -> set<Point>)
      returns (toTortuga: int, fromTortuga: Option<int>, ghost toTrail: seq<Point>, ghost fromTrail: seq<Point>)
      requires Valid() && OnGrid(start) && tortuga == seaMap.TortugaPos() && finish == seaMap.ChestPos()
      requires tortuga != finish && adj == seaMap.Adjacency() && Unvisited()
      modifies seaMap.cells, visited, this`bestPathToTortuga, this`bestPathFromTortugaToEnd, this`bestStraightPath
      ensures Unvisited() && bestStraightPath == old(bestStraightPath)
      ensures toTortuga == IntMax <==> fromTortuga.None?
      ensures toTortuga != IntMax ==> 0 <= toTortuga <= 26 && Traces(adj, bestPathToTortuga, tortuga, toTrail, toTortuga)
      ensures fromTortuga.Some? && fromTortuga.value != IntMax ==>
        0 <= fromTortuga.value <= 26 && Traces(adj, bestPathFromTortugaToEnd, finish, fromTrail, fromTortuga.value)
    {
      fromTrail := [];
      toTortuga, toTrail := Phase(start, tortuga, false, adj);
      assert SlotFor(tortuga, false) == ToTortuga && Buffer(Straight) == old(bestStraightPath);
      fromTortuga := None;
      if toTortuga != IntMax {
        ghost var toList := bestPathToTortuga;
        seaMap.ClearPathsForAllCells();
        seaMap.FillCells(true);
        var found;
        found, fromTrail := Phase(tortuga, finish, true, adj);
        assert SlotFor(finish, true) == FromTortuga;
        assert Buffer(ToTortuga) == toList && Buffer(Straight) == old(bestStraightPath);
        fromTortuga := Some(found);
      }
    }

    /**
     * `findShortestPath`: search Jack to the Chest; refill the map if that
     * failed; search Jack to Tortuga; if that succeeded, reset the depths,
     * refill, and search Tortuga to the Chest with kills allowed; then build
     * the list for the shorter of the straight route and the route through
     * Tortuga (the straight one on a tie), or no route when neither exists.
     *
     * Each search that succeeded reports a depth of at most 26 and left its
     * list as the trace of that depth from its goal.
     */
    method FindShortestPath() returns (r: Option<seq<Point>>, ghost straight: int, ghost toTortuga: int,
                                       ghost fromTortuga: Option<int>)
      requires Valid() && seaMap.ChestPos() != seaMap.TortugaPos() && Unvisited()
      modifies seaMap.cells, visited, this`bestPathToTortuga, this`bestPathFromTortugaToEnd, this`bestStraightPath
      ensures Unvisited()
      ensures toTortuga == IntMax <==> fromTortuga.None?
      ensures r.None? <==> straight == IntMax && (toTortuga == IntMax || fromTortuga == Some(IntMax))
      ensures r == Collected(Choose(Found(straight), ThroughTortuga(toTortuga, fromTortuga)), bestPathToTortuga,
                             bestPathFromTortugaToEnd, bestStraightPath, seaMap.TortugaPos())
      ensures straight != IntMax ==>
        (0 <= straight <= 26 && exists trail :: Traces(seaMap.Adjacency(), bestStraightPath, seaMap.ChestPos(), trail, straight))
      ensures toTortuga != IntMax ==>
        (0 <= toTortuga <= 26 && exists trail :: Traces(seaMap.Adjacency(), bestPathToTortuga, seaMap.TortugaPos(), trail, toTortuga))
      ensures fromTortuga.Some? && fromTortuga.value != IntMax ==>
        (0 <= fromTortuga.value <= 26 &&
         exists trail :: Traces(seaMap.Adjacency(), bestPathFromTortugaToEnd, seaMap.ChestPos(), trail, fromTortuga.value))
    {
      var start, finish, tortuga := seaMap.JackPos(), seaMap.ChestPos(), seaMap.TortugaPos();
      ghost var adj := seaMap.Adjacency();
      ghost var t1, t2, t3 := [], [], [];
      var straightPathSolution;
      straightPathSolution, t1 := Phase(start, finish, false, adj);
      ghost var straightList := bestStraightPath;
      assert SlotFor(finish, false) == Straight;
      if straightPathSolution == IntMax {
        seaMap.FillCells(true);
      }
      var pathThroughTortuga, fromTortugaToEnd;
      pathThroughTortuga, fromTortugaToEnd, t2, t3 := TortugaLegs(start, tortuga, finish, adj);
      assert Buffer(Straight) == straightList;
      straight, toTortuga, fromTortuga := straightPathSolution, pathThroughTortuga, fromTortugaToEnd;
      assert adj == seaMap.Adjacency() && finish == seaMap.ChestPos() && tortuga == seaMap.TortugaPos();
      assert straight != IntMax ==> Traces(adj, bestStraightPath, finish, t1, straight);
      assert toTortuga != IntMax ==> Traces(adj, bestPathToTortuga, tortuga, t2, toTortuga);
      assert fromTortuga.Some? && fromTortuga.value != IntMax ==> Traces(adj, bestPathFromTortugaToEnd, finish, t3, fromTortuga.value);
      r := Collected(Choose(Found(straightPathSolution), ThroughTortuga(pathThroughTortuga, fromTortugaToEnd)), bestPathToTortuga,
                     bestPathFromTortugaToEnd, bestStraightPath, tortuga);
    }
  }
}
