/**
 * The A* engine (`Solver.AStar`): a best-first search from one cell to another
 * over the map's walkable cells, with open and closed lists, the g and h
 * values and parent links kept in the cells themselves, and a Kraken kill
 * while the search runs from Tortuga to the Chest.
 */
module AStarSearch {
  import opened Agents
  import opened Geometry
  import opened Hazards
  import opened Grid
  import opened Routes

  /** `getDistanceBetween`: the larger of the two axis distances (the Chebyshev distance). */
  function DistanceBetween(first: Point, second: Point): (d: int)
    ensures d >= Abs(first.x - second.x) && d >= Abs(first.y - second.y)
    ensures d == Abs(first.x - second.x) || d == Abs(first.y - second.y)
  {
    var deltaX, deltaY := Abs(first.x - second.x), Abs(first.y - second.y);
    if deltaX < deltaY then deltaY else deltaX
  }

  /**
   * The selection order of the open list: a smaller g + h (`getHeuristic`)
   * first, and on equal g + h the smaller h.
   */
  predicate Better(a: Cell, b: Cell)
  {
    a.g + a.h < b.g + b.h || (a.g + a.h == b.g + b.h && a.h < b.h)
  }

  /**
   * A neighbour after the cost update of `shortestPath`: a walkable cell gets
   * the cost through `current`, its distance to `finish` and `current` as its
   * parent when that cost is lower than its own or it was not open yet.
   */
  function Relaxed(c: Cell, p: Point, current: Point, currentG: int, finish: Point, wasOpen: bool): (r: Cell)
    ensures Rescored(c, r)
    ensures !c.walkable ==> r == c
    ensures c.walkable && (currentG + DistanceBetween(current, p) < c.g || !wasOpen) ==>
      r.g == currentG + DistanceBetween(current, p) && r.h == DistanceBetween(p, finish) && r.parent == Some(current)
    ensures r != c ==>
      r.g == currentG + DistanceBetween(current, p) && r.h == DistanceBetween(p, finish) &&
      r.parent == Some(current) && (r.g < c.g || !wasOpen)
  {
    var newCost := currentG + DistanceBetween(current, p);
    if c.walkable && (newCost < c.g || !wasOpen)
    then c.(g := newCost, h := DistanceBetween(p, finish), parent := Some(current))
    else c
  }

  /** The length of a route that was found. */
  function SizeOf(route: Option<seq<Point>>): (n: Option<int>)
    ensures n.Some? <==> route.Some?
  {
    if route.Some? then Some(|route.value|) else None
  }

  /** The length of the route through Tortuga, when both of its legs were found. */
  function SizeOfBoth(first: Option<seq<Point>>, second: Option<seq<Point>>): (n: Option<int>)
    ensures n.Some? <==> first.Some? && second.Some?
  {
    if first.Some? && second.Some? then Some(|first.value| + |second.value|) else None
  }

  /**
   * The result `findShortestPath` assembles from its three searches: Jack's
   * cell followed by the route `Choose` picks, or no route.
   */
  function Assembled(jack: Point, straight: Option<seq<Point>>, toTortuga: Option<seq<Point>>,
                     fromTortuga: Option<seq<Point>>): (r: Option<seq<Point>>)
    ensures r.None? <==> straight.None? && (toTortuga.None? || fromTortuga.None?)
    ensures r.Some? ==> |r.value| >= 1 && r.value[0] == jack
    ensures r.Some? && straight.Some? ==> |r.value| <= 1 + |straight.value|
    ensures r.Some? && toTortuga.Some? && fromTortuga.Some? ==> |r.value| <= 1 + |toTortuga.value| + |fromTortuga.value|
    ensures r.Some? ==> (straight.Some? && r.value[1..] == straight.value) ||
                        (toTortuga.Some? && fromTortuga.Some? && r.value[1..] == toTortuga.value + fromTortuga.value)
  {
    match Choose(SizeOf(straight), SizeOfBoth(toTortuga, fromTortuga))
    case NoRoute => None
    case Direct => Some([jack] + straight.value)
    case ViaTortuga => Some([jack] + (toTortuga.value + fromTortuga.value))
  }

  /**
   * When each search that succeeded returned a walk between the right cells,
   * the assembled route is a walk from Jack's cell to the Chest's.
   */
  lemma AssembledWalk(adj: Point -> set<Point>, jack: Point, tortuga: Point, chest: Point, straight: Option<seq<Point>>,
                      toTortuga: Option<seq<Point>>, fromTortuga: Option<seq<Point>>)
    requires straight.Some? ==> IsWalk(adj, jack, straight.value) && End(jack, straight.value) == chest
    requires toTortuga.Some? ==> IsWalk(adj, jack, toTortuga.value) && End(jack, toTortuga.value) == tortuga
    requires fromTortuga.Some? ==> IsWalk(adj, tortuga, fromTortuga.value) && End(tortuga, fromTortuga.value) == chest
    ensures var r := Assembled(jack, straight, toTortuga, fromTortuga);
      r.Some? ==> IsWalk(adj, jack, r.value[1..]) && End(jack, r.value[1..]) == chest
  {
    var r := Assembled(jack, straight, toTortuga, fromTortuga);
    if r.Some? {
      if Choose(SizeOf(straight), SizeOfBoth(toTortuga, fromTortuga)) == ViaTortuga {
        WalkConcat(adj, jack, toTortuga.value, fromTortuga.value);
        assert r.value[1..] == toTortuga.value + fromTortuga.value;
      } else {
        assert r.value[1..] == straight.value;
      }
    }
  }

  /** What the cost update may do to a cell: only its g, h and parent change. */
  predicate Rescored(before: Cell, after: Cell)
  {
    after == before.(g := after.g, h := after.h, parent := after.parent)
  }

  /** What a search does to a cell besides its A* values: it may open it, and keeps its aliases and backtracking value. */
  predicate Searched(before: Cell, after: Cell)
  {
    after.agents == before.agents && after.bestPath == before.bestPath && (before.walkable ==> after.walkable)
  }

  class AStar {
    const seaMap: Map
    /** Set once a route to Tortuga was found; never reset. */
    var tortugaPassed: bool
    /** Set once the Kraken was killed; never reset. */
    var krakenPassed: bool

    constructor (seaMap: Map)
      ensures this.seaMap == seaMap && !tortugaPassed && !krakenPassed
    {
      this.seaMap := seaMap;
      tortugaPassed, krakenPassed := false, false;
    }

    /** A search in this state kills the Kraken when it comes next to it. */
    predicate KillMode()
      reads this
    {
      tortugaPassed && !krakenPassed
    }

    /**
     * The parent links of a search: every cell seen other than `start` was
     * reached from a closed neighbour with a smaller g, and is walkable; no
     * cell seen has a smaller g than `start`.
     */
    ghost predicate Forest(adj: Point -> set<Point>, seen: set<Point>, closed: set<Point>, start: Point)
      reads seaMap, seaMap.cells
      requires seaMap.Valid()
    {
      && start in seen && closed <= seen
      && (forall c :: c in seen ==> OnGrid(c))
      && (forall c :: c in seen && c != start ==>
            && seaMap.At(c).parent.Some? && seaMap.At(c).parent.value in closed
            && c in adj(seaMap.At(c).parent.value)
            && seaMap.At(seaMap.At(c).parent.value).g < seaMap.At(c).g
            && seaMap.At(c).walkable)
      && (forall c :: c in seen ==> seaMap.At(start).g <= seaMap.At(c).g)
    }

    /**
     * The cost update of `shortestPath` keeps the parent links: each relaxed
     * cell gets the closed cell `current` as parent and a larger g, and every
     * newly opened cell is a relaxed one.
     */
    method RelaxInForest(current: Point, neighbours: set<Point>, finish: Point, closed: set<Point>, open: seq<Point>,
                         ghost adj: Point -> set<Point>, ghost seen: set<Point>, ghost start: Point)
      returns (open': seq<Point>, ghost added: seq<Point>)
      requires seaMap.Valid() && OnGrid(finish) && Forest(adj, seen, closed, start)
      requires start in closed && current in closed && neighbours == adj(current)
      requires forall p :: p in neighbours ==> OnGrid(p)
      requires forall p :: p in open ==> p in seen && p !in closed
      requires Distinct(open)
      modifies seaMap.cells
      ensures Forest(adj, seen + (set p | p in added), closed, start)
      ensures forall x, y :: 0 <= x < 9 && 0 <= y < 9 ==> Rescored(old(seaMap.cells[x, y]), seaMap.cells[x, y])
      ensures open' == open + added && Distinct(open')
      ensures forall p :: p in added <==> p in neighbours && p !in closed && old(seaMap.At(p)).walkable && p !in open
    {
      open', added := Relax(current, neighbours, finish, closed, open);
      var seen' := seen + (set p | p in added);
      forall c | c in closed ensures seaMap.At(c) == old(seaMap.At(c)) {
        assert seaMap.cells[c.x, c.y] == old(seaMap.cells[c.x, c.y]);
      }
      forall c | c in seen' && c != start
        ensures seaMap.At(c).parent.Some? && seaMap.At(c).parent.value in closed
        ensures c in adj(seaMap.At(c).parent.value)
        ensures seaMap.At(seaMap.At(c).parent.value).g < seaMap.At(c).g
        ensures seaMap.At(c).walkable
        ensures seaMap.At(start).g <= seaMap.At(c).g
      {
        assert OnGrid(c);
        var before := old(seaMap.At(c));
        var newCost := old(seaMap.At(current).g) + DistanceBetween(current, c);
        assert seaMap.At(c) == if c in neighbours && c !in closed
          then Relaxed(before, c, current, old(seaMap.At(current).g), finish, c in open)
          else before;
        if c in neighbours && c !in closed && before.walkable && (newCost < before.g || c !in open) {
          assert c != current;
          assert seaMap.At(c).parent == Some(current) && seaMap.At(c).g == newCost;
        } else {
          assert seaMap.At(c) == before && c in seen;
        }
      }
    }

    /**
     * The selection loop of `shortestPath`: the first cell of the open list
     * whose g + h, then h, no other open cell beats.
     */
    method SelectCurrent(open: seq<Point>) returns (current: Point, ghost at: nat)
      requires seaMap.Valid() && open != [] && forall p :: p in open ==> OnGrid(p)
      ensures at < |open| && current == open[at]
      ensures forall i :: 0 <= i < |open| ==> !Better(seaMap.At(open[i]), seaMap.At(current))
      ensures forall i :: 0 <= i < at ==> Better(seaMap.At(current), seaMap.At(open[i]))
    {
      current, at := open[0], 0;
      for i := 0 to |open|
        invariant at < |open| && at <= i && current == open[at]
        invariant forall k :: 0 <= k < i ==> !Better(seaMap.At(open[k]), seaMap.At(current))
        invariant forall k :: 0 <= k < at ==> Better(seaMap.At(current), seaMap.At(open[k]))
      {
        if Better(seaMap.At(open[i]), seaMap.At(current)) {
          current, at := open[i], i;
        }
      }
    }

    /**
     * The kill step of `shortestPath`: every neighbour holding the Kraken's
     * alias is killed, the kill is recorded, and the cell is opened when no
     * Rock stands on it and its danger has reached zero. On a map where the
     * alias marks the Kraken's cell alone, that is one kill at the Kraken's
     * cell when it is a neighbour, and nothing otherwise.
     */
    method KillNearby(neighbours: set<Point>)
      requires seaMap.Valid() && forall n :: n in neighbours ==> OnGrid(n)
      modifies seaMap.cells, this`krakenPassed
      ensures krakenPassed == (old(krakenPassed) || exists n :: n in neighbours && 'K' in old(seaMap.At(n)).agents)
      ensures forall x, y :: 0 <= x < 9 && 0 <= y < 9 ==> Opened(old(seaMap.cells[x, y]), seaMap.cells[x, y])
      ensures (forall n :: n in neighbours ==> 'K' !in old(seaMap.At(n)).agents) ==>
        forall x, y :: 0 <= x < 9 && 0 <= y < 9 ==> seaMap.cells[x, y] == old(seaMap.cells[x, y])
      ensures old(seaMap.KrakenMarked()) ==>
        var kraken := seaMap.agents[KrakenIx].pos;
        forall x, y :: 0 <= x < 9 && 0 <= y < 9 ==>
          seaMap.cells[x, y] == if kraken in neighbours && 'K' in old(seaMap.At(kraken)).agents
                                then AfterKill(old(seaMap.cells[x, y]), kraken, Point(x, y)) else old(seaMap.cells[x, y])
    {
      var rest := neighbours;
      ghost var killed := false;
      ghost var first := seaMap.agents[KrakenIx].pos;
      ghost var marked := seaMap.KrakenMarked();
      while rest != {}
        invariant rest <= neighbours
        invariant forall x, y :: 0 <= x < 9 && 0 <= y < 9 ==> Opened(old(seaMap.cells[x, y]), seaMap.cells[x, y])
        invariant killed <==> exists n :: n in neighbours - rest && 'K' in old(seaMap.At(n)).agents
        invariant krakenPassed == (old(krakenPassed) || killed)
        invariant !killed ==> forall x, y :: 0 <= x < 9 && 0 <= y < 9 ==> seaMap.cells[x, y] == old(seaMap.cells[x, y])
        invariant killed ==> first in neighbours - rest && 'K' in old(seaMap.At(first)).agents
        invariant killed && marked ==> first == seaMap.agents[KrakenIx].pos
        invariant killed && marked ==>
          forall x, y :: 0 <= x < 9 && 0 <= y < 9 ==> seaMap.cells[x, y] == AfterKill(old(seaMap.cells[x, y]), first, Point(x, y))
        decreases rest
      {
        var n :| n in rest;
        rest := rest - {n};
        assert seaMap.At(n).agents == old(seaMap.At(n)).agents;
        if 'K' in seaMap.At(n).agents {
          if !killed {
            first := n;
          } else if marked {
            assert false;
          }
          label Before:
          seaMap.KillAndClear(n);
          forall x, y | 0 <= x < 9 && 0 <= y < 9 ensures Opened(old(seaMap.cells[x, y]), seaMap.cells[x, y]) {
            OpenedTwice(old(seaMap.cells[x, y]), old@Before(seaMap.cells[x, y]), seaMap.cells[x, y]);
          }
          krakenPassed := true;
          killed := true;
        }
      }
    }

    /** The kill step keeps the parent links: it changes no g or parent, and opens cells only. */
    method KillInForest(neighbours: set<Point>, ghost adj: Point -> set<Point>, ghost seen: set<Point>,
                        ghost closed: set<Point>, ghost start: Point)
      requires seaMap.Valid() && forall n :: n in neighbours ==> OnGrid(n)
      requires Forest(adj, seen, closed, start)
      modifies seaMap.cells, this`krakenPassed
      ensures Forest(adj, seen, closed, start)
      ensures old(krakenPassed) ==> krakenPassed
      ensures forall x, y :: 0 <= x < 9 && 0 <= y < 9 ==> Opened(old(seaMap.cells[x, y]), seaMap.cells[x, y])
    {
      KillNearby(neighbours);
      forall c | c in seen
        ensures old(seaMap.At(c)) == seaMap.At(c).(walkable := old(seaMap.At(c)).walkable, danger := old(seaMap.At(c)).danger)
      {
      }
    }

    /** One turn of the cost-update loop of `shortestPath`, for neighbour `n`. */
    method RelaxOne(current: Point, n: Point, finish: Point, closed: set<Point>, wasOpen: bool) returns (isNew: bool)
      requires seaMap.Valid() && OnGrid(current) && OnGrid(n) && OnGrid(finish)
      modifies seaMap.cells
      ensures forall x, y :: 0 <= x < 9 && 0 <= y < 9 && (x != n.x || y != n.y) ==> seaMap.cells[x, y] == old(seaMap.cells[x, y])
      ensures seaMap.At(n) == if n !in closed then Relaxed(old(seaMap.At(n)), n, current, old(seaMap.At(current).g), finish, wasOpen)
                              else old(seaMap.At(n))
      ensures isNew <==> n !in closed && old(seaMap.At(n)).walkable && !wasOpen
    {
      if n in closed || !seaMap.At(n).walkable {
        return false;
      }
      var newCost := seaMap.At(current).g + DistanceBetween(current, n);
      if newCost < seaMap.At(n).g || !wasOpen {
        seaMap.cells[n.x, n.y] := seaMap.At(n).(g := newCost, h := DistanceBetween(n, finish), parent := Some(current));
      }
      isNew := !wasOpen;
    }

    /**
     * The cost-update loop of `shortestPath` over the neighbours of `current`:
     * each neighbour that is neither closed nor blocked is relaxed, and opened
     * at the back of the open list if it was not open yet.
     */
    method Relax(current: Point, neighbours: set<Point>, finish: Point, closed: set<Point>, open: seq<Point>)
      returns (open': seq<Point>, ghost added: seq<Point>)
      requires seaMap.Valid() && OnGrid(current) && OnGrid(finish)
      requires forall p :: p in neighbours ==> OnGrid(p)
      requires current in closed
      requires forall p :: p in open ==> OnGrid(p) && p !in closed
      requires Distinct(open)
      modifies seaMap.cells
      ensures forall x, y :: 0 <= x < 9 && 0 <= y < 9 ==>
        seaMap.cells[x, y] ==
          if Point(x, y) in neighbours && Point(x, y) !in closed
          then Relaxed(old(seaMap.cells[x, y]), Point(x, y), current, old(seaMap.At(current).g), finish, Point(x, y) in open)
          else old(seaMap.cells[x, y])
      ensures open' == open + added && Distinct(open')
      ensures forall p :: p in added <==> p in neighbours && p !in closed && old(seaMap.At(p)).walkable && p !in open
    {
      open', added := open, [];
      var rest := neighbours;
      while rest != {}
        invariant rest <= neighbours
        invariant forall x, y :: 0 <= x < 9 && 0 <= y < 9 ==>
          seaMap.cells[x, y] ==
            if Point(x, y) in neighbours - rest && Point(x, y) !in closed
            then Relaxed(old(seaMap.cells[x, y]), Point(x, y), current, old(seaMap.At(current).g), finish, Point(x, y) in open)
            else old(seaMap.cells[x, y])
        invariant open' == open + added && Distinct(open')
        invariant forall p :: p in added <==> p in neighbours - rest && p !in closed && old(seaMap.At(p)).walkable && p !in open
        decreases rest
      {
        var n :| n in rest;
        rest := rest - {n};
        var isNew := RelaxOne(current, n, finish, closed, n in open');
        if isNew {
          open', added := open' + [n], added + [n];
        }
      }
    }

    /**
     * `tracePath`: follow the parent links back from `finish` to `start` and
     * reverse; the result is a walk from `start` (excluded) to `finish`.
     */
    method TracePath(start: Point, finish: Point, ghost seen: set<Point>, ghost closed: set<Point>,
                     ghost adj: Point -> set<Point>) returns (path: seq<Point>)
      requires seaMap.Valid() && Forest(adj, seen, closed, start) && finish in seen
      ensures IsWalk(adj, start, path) && End(start, path) == finish
      ensures forall i :: 0 <= i < |path| ==> path[i] in seen && path[i] != start && seaMap.At(path[i]).walkable
    {
      var trail: seq<Point> := [];
      var current := finish;
      while current != start
        invariant current in seen
        invariant IsWalk(adj, current, Reversed(trail)) && End(current, Reversed(trail)) == finish
        invariant forall i :: 0 <= i < |trail| ==> trail[i] in seen && trail[i] != start
        decreases seaMap.At(current).g - seaMap.At(start).g
      {
        var parent := seaMap.At(current).parent.value;
        WalkCons(adj, parent, current, Reversed(trail));
        ReversedSnoc(trail, current);
        trail := trail + [current];
        current := parent;
      }
      path := Reversed(trail);
    }

    /**
     * The loop invariant of `shortestPath`, with `seen` the cells open or
     * closed; without a kill, every walkable neighbour of a closed cell was
     * seen.
     */
    ghost predicate Searching(adj: Point -> set<Point>, start: Point, finish: Point, open: seq<Point>,
                              closed: set<Point>, seen: set<Point>, killMode: bool)
      reads seaMap, seaMap.cells
      requires seaMap.Valid()
    {
      && (forall p :: p in open ==> OnGrid(p) && p !in closed)
      && Distinct(open)
      && (forall p :: p in seen <==> p in open || p in closed)
      && Forest(adj, seen, closed, start)
      && (start in closed || open == [start])
      && finish !in closed
      && (!killMode ==> forall c, n :: c in closed && n in adj(c) && OnGrid(n) && seaMap.At(n).walkable ==> n in seen)
    }

    /**
     * One turn of the loop of `shortestPath` after the selection: close
     * `current`, kill the Kraken next to it if the search may, and relax its
     * neighbours.
     */
    method Expand(current: Point, finish: Point, open: seq<Point>, closed: set<Point>,
                  ghost adj: Point -> set<Point>, ghost start: Point, ghost seen: set<Point>, ghost killMode: bool)
      returns (open': seq<Point>, closed': set<Point>, ghost seen': set<Point>)
      requires seaMap.Valid() && adj == seaMap.Adjacency() && OnGrid(finish)
      requires Searching(adj, start, finish, open, closed, seen, killMode)
      requires current in open && current != finish
      requires killMode == KillMode() || krakenPassed
      modifies seaMap.cells, this`krakenPassed
      ensures Searching(adj, start, finish, open', closed', seen', killMode)
      ensures closed' == closed + {current} && current !in closed
      ensures killMode == KillMode() || krakenPassed
      ensures forall x, y :: 0 <= x < 9 && 0 <= y < 9 ==> Searched(old(seaMap.cells[x, y]), seaMap.cells[x, y])
      ensures !killMode ==> krakenPassed == old(krakenPassed)
      ensures !killMode ==>
        forall x, y :: 0 <= x < 9 && 0 <= y < 9 ==>
          seaMap.cells[x, y].walkable == old(seaMap.cells[x, y].walkable) && seaMap.cells[x, y].danger == old(seaMap.cells[x, y].danger)
    {
      var rest := RemoveFirst(open, current);
      closed' := closed + {current};
      var neighbours := seaMap.Adjacent(current);
      assert neighbours == adj(current);
      if tortugaPassed && !krakenPassed {
        KillInForest(neighbours, adj, seen, closed', start);
      } else {
        assert forall x, y :: 0 <= x < 9 && 0 <= y < 9 ==> Opened(old(seaMap.cells[x, y]), seaMap.cells[x, y]);
      }
      label Killed:
      ghost var added;
      open', added := RelaxInForest(current, neighbours, finish, closed', rest, adj, seen, start);
      seen' := seen + (set p | p in added);
      forall x, y | 0 <= x < 9 && 0 <= y < 9 ensures Searched(old(seaMap.cells[x, y]), seaMap.cells[x, y]) {
        assert Opened(old(seaMap.cells[x, y]), old@Killed(seaMap.cells[x, y]));
        assert Rescored(old@Killed(seaMap.cells[x, y]), seaMap.cells[x, y]);
      }
      if !killMode {
        forall x, y | 0 <= x < 9 && 0 <= y < 9
          ensures seaMap.cells[x, y].walkable == old(seaMap.cells[x, y].walkable)
          ensures seaMap.cells[x, y].danger == old(seaMap.cells[x, y].danger)
        {
          assert old@Killed(seaMap.cells[x, y]) == old(seaMap.cells[x, y]);
          assert Rescored(old@Killed(seaMap.cells[x, y]), seaMap.cells[x, y]);
        }
        forall c, n | c in closed' && n in adj(c) && OnGrid(n) && seaMap.At(n).walkable ensures n in seen' {
          assert seaMap.cells[n.x, n.y].walkable == old(seaMap.cells[n.x, n.y].walkable);
          if c == current {
            assert n in neighbours;
          }
        }
      }
    }

    /**
     * When the open list runs empty without a kill, every walk from `start`
     * over walkable cells stays among the closed cells, so none reaches
     * `finish`.
     */
    lemma Unreachable(adj: Point -> set<Point>, start: Point, finish: Point, closed: set<Point>, seen: set<Point>)
      requires seaMap.Valid() && Searching(adj, start, finish, [], closed, seen, false)
      ensures Unreached(adj, start, finish, seaMap.WalkableCells())
    {
      var walkable := seaMap.WalkableCells();
      forall steps: seq<Point> | IsWalk(adj, start, steps) && (forall i :: 0 <= i < |steps| ==> steps[i] in walkable)
        ensures End(start, steps) != finish
      {
        WalkStaysInside(adj, closed, walkable, start, steps);
      }
    }

    /**
     * `shortestPath(start, finish)`: a route from `start` to `finish` over
     * walkable cells, or none. Without a kill, none means that no walk over
     * walkable cells leads from `start` to `finish`.
     */
    method ShortestPath(start: Point, finish: Point) returns (r: Option<seq<Point>>)
      requires seaMap.Valid() && OnGrid(start) && OnGrid(finish)
      modifies seaMap.cells, this`krakenPassed
      ensures r.Some? ==> IsWalk(seaMap.Adjacency(), start, r.value) && End(start, r.value) == finish
      ensures r.Some? ==> forall i :: 0 <= i < |r.value| ==> OnGrid(r.value[i]) && seaMap.At(r.value[i]).walkable
      ensures r.None? && !old(KillMode()) ==> Unreached(seaMap.Adjacency(), start, finish, seaMap.WalkableCells())
      ensures forall x, y :: 0 <= x < 9 && 0 <= y < 9 ==> Searched(old(seaMap.cells[x, y]), seaMap.cells[x, y])
      ensures !old(KillMode()) ==> krakenPassed == old(krakenPassed)
      ensures !old(KillMode()) ==>
        forall x, y :: 0 <= x < 9 && 0 <= y < 9 ==>
          seaMap.cells[x, y].walkable == old(seaMap.cells[x, y].walkable) && seaMap.cells[x, y].danger == old(seaMap.cells[x, y].danger)
    {
      var open := [start];
      var closed: set<Point> := {};
      ghost var seen: set<Point> := {start};
      ghost var killMode := KillMode();
      ghost var adj := seaMap.Adjacency();
      while open != []
        invariant adj == seaMap.Adjacency()
        invariant Searching(adj, start, finish, open, closed, seen, killMode)
        invariant killMode == KillMode() || krakenPassed
        invariant killMode == old(KillMode())
        invariant forall x, y :: 0 <= x < 9 && 0 <= y < 9 ==> Searched(old(seaMap.cells[x, y]), seaMap.cells[x, y])
        invariant !killMode ==> krakenPassed == old(krakenPassed)
        invariant !killMode ==>
          forall x, y :: 0 <= x < 9 && 0 <= y < 9 ==>
            seaMap.cells[x, y].walkable == old(seaMap.cells[x, y].walkable) && seaMap.cells[x, y].danger == old(seaMap.cells[x, y].danger)
        decreases GridPoints() - closed
      {
        var current, _ := SelectCurrent(open);
        if current == finish {
          var path := TracePath(start, finish, seen, closed, adj);
          return Some(path);
        }
        open, closed, seen := Expand(current, finish, open, closed, adj, start, seen, killMode);
      }
      r := None;
      if !killMode {
        Unreachable(adj, start, finish, closed, seen);
      }
    }

    /**
     * One of the three calls `findShortestPath` makes to `shortestPath`, seen
     * from the caller: a route found is a walk to `finish`; without a kill, no
     * route means no walk over the cells walkable before the call, and the
     * walkable cells stay as they were; the aliases never change.
     */
    method Search(start: Point, finish: Point) returns (r: Option<seq<Point>>)
      requires seaMap.Valid() && OnGrid(start) && OnGrid(finish)
      modifies seaMap.cells, this`krakenPassed
      ensures r.Some? ==> IsWalk(seaMap.Adjacency(), start, r.value) && End(start, r.value) == finish
      ensures !old(KillMode()) ==> krakenPassed == old(krakenPassed)
      ensures !old(KillMode()) ==> seaMap.WalkableCells() == old(seaMap.WalkableCells())
      ensures r.None? && !old(KillMode()) ==> Unreached(seaMap.Adjacency(), start, finish, old(seaMap.WalkableCells()))
      ensures forall x, y :: 0 <= x < 9 && 0 <= y < 9 ==> seaMap.cells[x, y].agents == old(seaMap.cells[x, y].agents)
    {
      r := ShortestPath(start, finish);
      if !old(KillMode()) {
        forall p | OnGrid(p) ensures seaMap.At(p).walkable == old(seaMap.At(p).walkable) {
          assert seaMap.cells[p.x, p.y].walkable == old(seaMap.cells[p.x, p.y].walkable);
        }
        assert seaMap.WalkableCells() == old(seaMap.WalkableCells());
      }
    }

    /**
     * `findShortestPath`: the route from Jack to the Chest, either direct or
     * through Tortuga, whichever `Choose` picks; Jack's cell comes first. The
     * search to Tortuga sets `tortugaPassed`, so that the search from Tortuga
     * may kill the Kraken. Only when a route is found are the cells filled
     * again (with `refill`, which appends the aliases once more).
     */
    method FindShortestPath() returns (r: Option<seq<Point>>, ghost straight: Option<seq<Point>>,
                                       ghost toTortuga: Option<seq<Point>>, ghost fromTortuga: Option<seq<Point>>)
      requires seaMap.Valid()
      modifies seaMap.cells, this`tortugaPassed, this`krakenPassed
      ensures toTortuga.None? ==> fromTortuga.None?
      ensures r == Assembled(seaMap.JackPos(), straight, toTortuga, fromTortuga)
      ensures r.Some? ==> IsWalk(seaMap.Adjacency(), seaMap.JackPos(), r.value[1..])
      ensures r.Some? ==> End(seaMap.JackPos(), r.value[1..]) == seaMap.ChestPos()
      ensures straight.None? && !old(KillMode()) ==>
        Unreached(seaMap.Adjacency(), seaMap.JackPos(), seaMap.ChestPos(), old(seaMap.WalkableCells()))
      ensures toTortuga.None? && !old(KillMode()) ==>
        Unreached(seaMap.Adjacency(), seaMap.JackPos(), seaMap.TortugaPos(), old(seaMap.WalkableCells()))
      ensures tortugaPassed == (old(tortugaPassed) || toTortuga.Some?)
      ensures r.None? ==> forall x, y :: 0 <= x < 9 && 0 <= y < 9 ==> seaMap.cells[x, y].agents == old(seaMap.cells[x, y].agents)
      ensures r.Some? ==> forall x, y :: 0 <= x < 9 && 0 <= y < 9 ==>
        && seaMap.cells[x, y].danger == DangerAt(seaMap.agents, Point(x, y))
        && Balanced(seaMap.cells[x, y])
        && seaMap.cells[x, y].agents == old(seaMap.cells[x, y].agents) + AliasesAt(seaMap.agents, Point(x, y))
    {
      var start, finish, tortuga := seaMap.JackPos(), seaMap.ChestPos(), seaMap.TortugaPos();
      ghost var adj := seaMap.Adjacency();
      var straightPath := Search(start, finish);
      label Straight:
      var throughTortuga := Search(start, tortuga);
      label Through:
      var fromTortugaToEnd: Option<seq<Point>> := None;
      if throughTortuga.Some? {
        tortugaPassed := true;
        fromTortugaToEnd := Search(tortuga, finish);
      }
      straight, toTortuga, fromTortuga := straightPath, throughTortuga, fromTortugaToEnd;
      forall x, y | 0 <= x < 9 && 0 <= y < 9 ensures seaMap.cells[x, y].agents == old(seaMap.cells[x, y].agents) {
        assert old@Straight(seaMap.cells[x, y].agents) == old(seaMap.cells[x, y].agents);
        assert old@Through(seaMap.cells[x, y].agents) == old(seaMap.cells[x, y].agents);
      }
      r := Assembled(start, straightPath, throughTortuga, fromTortugaToEnd);
      AssembledWalk(adj, start, tortuga, finish, straight, toTortuga, fromTortuga);
      if r.None? {
        return;
      }
      seaMap.FillCells(true);
    }
  }
}
