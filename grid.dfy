/**
 * The sea map (`Map` and `MapCell` in the source): a 9x9 grid of cells whose
 * danger levels and walkability are computed from the agents, restored
 * between searches, and lowered when the Kraken is killed.
 *
 * A `MapCell` object is only ever reached as `cells[x][y]`, so its identity is
 * its position: the model keeps each cell as a value in a 9x9 array and
 * updates it in place.
 */
module Grid {
  import opened Agents
  import opened Geometry
  import opened Hazards

  /** `Integer.MAX_VALUE`, the "no path yet" value of `currentBestPath`. */
  const IntMax: int := 0x7fff_ffff

  /**
   * The fields of a `MapCell`: walkability, danger level, the aliases of the
   * agents standing on it, the backtracking scratch value `currentBestPath`,
   * and the A* scratch values g, h and parent (null until first set).
   */
  datatype Cell = Cell(walkable: bool, danger: int, agents: seq<char>,
                       bestPath: int, g: int, h: int, parent: Option<Point>)

  /** A cell as `new MapCell(x, y, true)` builds it. */
  const NewCell := Cell(true, 0, [], IntMax, 0, 0, None)

  /** The central invariant: a cell is walkable exactly when its danger level is zero. */
  predicate Balanced(c: Cell) { c.walkable == (c.danger == 0) }

  /** The first phase of `fillCells`: a fresh cell, or the old one with danger 0 and walkable. */
  function Reset(c: Cell, refill: bool): Cell
  {
    if refill then c.(danger := 0, walkable := true) else NewCell
  }

  /**
   * Cell `p` after the agents of `done` have been applied, in order, to `base`:
   * their danger added, the cell blocked if any was, their aliases appended.
   */
  function Applied(base: Cell, done: seq<Agent>, p: Point): Cell
  {
    var d := DangerAt(done, p);
    base.(danger := base.danger + d, walkable := if d > 0 then false else base.walkable,
          agents := base.agents + AliasesAt(done, p))
  }

  /** What one agent does to cell `p` in `fillCells`: add its danger, block the cell if any, record its alias. */
  function Step(c: Cell, a: Agent, p: Point): Cell
  {
    var d := AgentDanger(a, p);
    c.(danger := c.danger + d, walkable := if d > 0 then false else c.walkable,
       agents := c.agents + if a.pos == p then [Alias(a.kind)] else [])
  }

  lemma StepApplied(base: Cell, done: seq<Agent>, a: Agent, p: Point)
    ensures Step(Applied(base, done, p), a, p) == Applied(base, done + [a], p)
  {
    assert (done + [a])[..|done|] == done;
  }

  /** Cell `p` after `fillCells(refill)` over `agents`, given what it held before. */
  function Filled(c: Cell, refill: bool, agents: seq<Agent>, p: Point): (r: Cell)
    ensures Balanced(r) && r.danger >= 0
    ensures r.danger == DangerAt(agents, p)
    ensures r.agents == (if refill then c.agents else []) + AliasesAt(agents, p)
    ensures refill ==> r.bestPath == c.bestPath && r.g == c.g && r.h == c.h && r.parent == c.parent
    ensures !refill ==> r.bestPath == IntMax && r.g == 0 && r.h == 0 && r.parent == None
  {
    Applied(Reset(c, refill), agents, p)
  }

  /**
   * `fillCells` puts the Kraken's alias on the Kraken's cell and on no other:
   * a refilled cell holds it only if it held it before or is the Kraken's.
   */
  lemma FilledMarksKraken(c: Cell, refill: bool, agents: seq<Agent>, p: Point)
    requires Listed(agents)
    ensures 'K' in Filled(c, refill, agents, p).agents <==> (refill && 'K' in c.agents) || p == agents[KrakenIx].pos
  {
    KrakenAliasOnly(agents, p);
  }

  /** A cell of the Kraken's zone in `killKraken`: one less danger, walkable again on reaching zero. */
  function Decremented(c: Cell): Cell
  {
    c.(danger := c.danger - 1, walkable := if c.danger - 1 == 0 then true else c.walkable)
  }

  /** The clamped cells of the Kraken's zone around `cell`, other than `cell` itself. */
  function KillZone(perception: seq<Point>, cell: Point): (r: set<Point>)
    ensures forall q :: q in r <==> q != cell && HitBefore(perception, |perception|, cell, q)
  {
    (set k | 0 <= k < |perception| :: Bounded(cell, perception[k])) - {cell}
  }

  /** One of the first `i` offsets, clamped around `cell`, lands on `q`. */
  predicate HitBefore(perception: seq<Point>, i: int, cell: Point, q: Point)
  {
    exists j :: 0 <= j < i && j < |perception| && Bounded(cell, perception[j]) == q
  }

  lemma HitBeforeNext(perception: seq<Point>, i: int, cell: Point, q: Point)
    requires 0 <= i < |perception|
    ensures HitBefore(perception, i + 1, cell, q) <==> HitBefore(perception, i, cell, q) || Bounded(cell, perception[i]) == q
  {
    if Bounded(cell, perception[i]) == q { assert 0 <= i < i + 1 && Bounded(cell, perception[i]) == q; }
  }

  /** Cell `q` after `killKraken(cell)`: the Kraken's cell loses one danger and keeps its walkability. */
  function Killed(c: Cell, perception: seq<Point>, cell: Point, q: Point): Cell
  {
    if q == cell then c.(danger := c.danger - 1)
    else if q in KillZone(perception, cell) then Decremented(c)
    else c
  }

  /**
   * What both engines do to the Kraken's cell right after `killKraken`: make it
   * walkable when no Rock stands on it and its danger has reached zero.
   */
  function Cleared(c: Cell): Cell
  {
    if 'R' !in c.agents && c.danger == 0 then c.(walkable := true) else c
  }

  /**
   * Cell `q` after a kill at `cell` as both engines perform it: `killKraken(cell)`,
   * then `cell` opened when no Rock stands on it and its danger reached zero.
   */
  function AfterKill(c: Cell, cell: Point, q: Point): Cell
  {
    if q == cell then Cleared(Killed(c, Orthogonal, cell, q)) else Killed(c, Orthogonal, cell, q)
  }

  /** The orthogonal zone cells of a kill are distinct, so each is decremented once. */
  lemma KillTargetsDistinct(cell: Point, i: int, j: int)
    requires OnGrid(cell) && 0 <= i < 4 && 0 <= j < 4
    requires Bounded(cell, Orthogonal[i]) == Bounded(cell, Orthogonal[j]) != cell
    ensures i == j
  {
  }

  /**
   * A kill at the Kraken's cell on a freshly filled map, followed by the
   * engines' fix-up of that cell, keeps every cell walkable exactly when its
   * danger level is zero. The only Rock alias the cell may already carry is
   * the Rock's own.
   */
  lemma {:induction false} KillKeepsBalance(agents: seq<Agent>, refill: bool, c0: Cell, q: Point)
    requires Placed(agents)
    requires refill && 'R' in c0.agents ==> q == agents[RockIx].pos
    ensures var cell := agents[KrakenIx].pos;
      var c := Killed(Filled(c0, refill, agents, q), Orthogonal, cell, q);
      Balanced(if q == cell then Cleared(c) else c)
  {
    var kraken := agents[KrakenIx];
    var f := Filled(c0, refill, agents, q);
    var c := Killed(f, Orthogonal, kraken.pos, q);
    if q == kraken.pos {
      KrakenCellsDangerous(agents, q);
      if 'R' in c.agents {
        if 'R' in AliasesAt(agents, q) {
          AliasSource(agents, q, 'R');
          var i :| 0 <= i < |agents| && agents[i].pos == q && Alias(agents[i].kind) == 'R';
          assert i == RockIx;
        }
        DangerOfSix(agents, q);
        assert c.danger >= 1;
      }
    } else if q in KillZone(Orthogonal, kraken.pos) {
      var k :| 0 <= k < |Orthogonal| && Bounded(kraken.pos, Orthogonal[k]) == q;
      assert q in Zone(kraken);
      KrakenCellsDangerous(agents, q);
    }
  }

  /** The 81 cells of the grid. */
  function GridPoints(): (r: set<Point>)
    ensures forall p :: p in r <==> OnGrid(p)
  {
    var r := set x, y | 0 <= x < 9 && 0 <= y < 9 :: Point(x, y);
    assert forall p :: OnGrid(p) ==> Point(p.x, p.y) in r;
    r
  }

  /**
   * What a kill may do to a cell: only its danger and walkability change, the
   * danger never rises, and a walkable cell stays walkable (a kill only ever
   * opens cells).
   */
  predicate Opened(before: Cell, after: Cell)
  {
    && after == before.(walkable := after.walkable, danger := after.danger)
    && after.danger <= before.danger
    && (before.walkable ==> after.walkable)
  }

  lemma OpenedTwice(a: Cell, b: Cell, c: Cell)
    requires Opened(a, b) && Opened(b, c)
    ensures Opened(a, c)
  {
  }

  lemma KilledOpens(c: Cell, cell: Point, q: Point)
    ensures Opened(c, AfterKill(c, cell, q))
    ensures q != cell && q !in KillZone(Orthogonal, cell) ==> AfterKill(c, cell, q) == c
  {
  }

  class Map {
    /** The scenario `getNeighbourCells` branches on; it may change after Jack was built. */
    var scenario: int
    /** jack, davyJones, kraken, rock, chest, tortuga, in that order. */
    var agents: seq<Agent>
    const cells: array2<Cell>

    /**
     * What the operations of a map rely on: a 9x9 grid, six agents on it, and
     * the Kraken's orthogonal perception. A generated map also meets `Placed`
     * and `ValidPlacement` (see the constructor).
     */
    ghost predicate Valid()
      reads this
    {
      && cells.Length0 == 9 && cells.Length1 == 9
      && |agents| == 6 && (forall i :: 0 <= i < 6 ==> OnGrid(agents[i].pos))
      && agents[KrakenIx].perception == Orthogonal
    }

    function JackPos(): Point reads this requires Valid() { agents[JackIx].pos }
    function ChestPos(): Point reads this requires Valid() { agents[ChestIx].pos }
    function TortugaPos(): Point reads this requires Valid() { agents[TortugaIx].pos }

    function At(p: Point): Cell
      reads this, cells
      requires Valid() && OnGrid(p)
    {
      cells[p.x, p.y]
    }

    /** The cells a search may step on. */
    ghost function WalkableCells(): (r: set<Point>)
      reads this, cells
      requires Valid()
      ensures forall p :: p in r <==> OnGrid(p) && At(p).walkable
    {
      set x, y | 0 <= x < 9 && 0 <= y < 9 && cells[x, y].walkable :: Point(x, y)
    }

    /** `getNeighbourCells(cell)` for the map's current scenario and Jack's perception. */
    function Adjacent(p: Point): (r: set<Point>)
      reads this
      requires Valid()
      ensures forall q :: q in r ==> OnGrid(q)
    {
      Adjacency()(p)
    }

    /** The neighbour relation of the map as it stands, as a value the path predicates take. */
    function Adjacency(): Point -> set<Point>
      reads this
      requires Valid()
    {
      var scenario, perception := scenario, agents[JackIx].perception;
      p => Neighbours(scenario, perception, p)
    }

    /**
     * The Kraken's alias is on the Kraken's cell only, as `fillCells` leaves
     * the map: the `contains('K')` tests of the engines find that cell alone.
     */
    ghost predicate KrakenMarked()
      reads this, cells
      requires Valid()
    {
      forall p :: OnGrid(p) && 'K' in At(p).agents ==> p == agents[KrakenIx].pos
    }

    /**
     * A map whose agents passed `isCorrect` (what `generate` loops for and what
     * `generate(String)` checks), filled by `fillCells(false)`.
     */
    constructor (scenario: int, agents: seq<Agent>)
      requires Placed(agents) && ValidPlacement(agents)
      ensures Valid() && this.scenario == scenario && this.agents == agents && fresh(cells)
      ensures forall x, y :: 0 <= x < 9 && 0 <= y < 9 ==>
        cells[x, y] == Filled(NewCell, false, agents, Point(x, y))
      ensures KrakenMarked()
    {
      this.scenario := scenario;
      this.agents := agents;
      cells := new Cell[9, 9]((x, y) => NewCell);
      new;
      FillCells(false);
      forall p | OnGrid(p) && 'K' in At(p).agents ensures p == agents[KrakenIx].pos {
        FilledMarksKraken(NewCell, false, agents, p);
      }
    }

    /**
     * `fillCells(refill)`: every cell gets the danger level `DangerAt` gives it
     * and is walkable exactly when that level is zero. Without `refill` each
     * cell starts fresh; with it, the scratch values are kept and the agent
     * aliases are appended to the ones already there.
     */
    method FillCells(refill: bool)
      requires Valid()
      modifies cells
      ensures forall x, y :: 0 <= x < 9 && 0 <= y < 9 ==>
        cells[x, y] == Filled(old(cells[x, y]), refill, agents, Point(x, y))
    {
      ResetCells(refill);
      ApplyAgents();
    }

    /** The agent loop of `fillCells`, applied to whatever the first phase left. */
    method ApplyAgents()
      requires cells.Length0 == 9 && cells.Length1 == 9
      requires forall k :: 0 <= k < |agents| ==> OnGrid(agents[k].pos)
      modifies cells
      ensures forall x, y :: 0 <= x < 9 && 0 <= y < 9 ==>
        cells[x, y] == Applied(old(cells[x, y]), agents, Point(x, y))
    {
      for k := 0 to |agents|
        invariant forall x, y :: 0 <= x < 9 && 0 <= y < 9 ==>
          cells[x, y] == Applied(old(cells[x, y]), agents[..k], Point(x, y))
      {
        ApplyAgent(agents[k]);
        forall x, y | 0 <= x < 9 && 0 <= y < 9
          ensures cells[x, y] == Applied(old(cells[x, y]), agents[..k + 1], Point(x, y))
        {
          StepApplied(old(cells[x, y]), agents[..k], agents[k], Point(x, y));
          assert agents[..k + 1] == agents[..k] + [agents[k]];
        }
      }
      assert agents[..|agents|] == agents;
    }

    /** The first phase of `fillCells`: reallocate, or reset danger and walkability in place. */
    method ResetCells(refill: bool)
      requires cells.Length0 == 9 && cells.Length1 == 9
      modifies cells
      ensures forall x, y :: 0 <= x < 9 && 0 <= y < 9 ==> cells[x, y] == Reset(old(cells[x, y]), refill)
    {
      for x := 0 to 9
        invariant forall x', y' :: 0 <= x' < 9 && 0 <= y' < 9 ==>
          cells[x', y'] == if x' < x then Reset(old(cells[x', y']), refill) else old(cells[x', y'])
      {
        for y := 0 to 9
          invariant forall x', y' :: 0 <= x' < 9 && 0 <= y' < 9 ==>
            cells[x', y'] == if x' < x || (x' == x && y' < y) then Reset(old(cells[x', y']), refill) else old(cells[x', y'])
        {
          cells[x, y] := if refill then cells[x, y].(danger := 0, walkable := true) else NewCell;
        }
      }
    }

    /**
     * One turn of the agent loop of `fillCells`: increment and block each cell
     * of a dangerous agent's clamped zone other than its own cell, then record
     * the agent's alias on its own cell and block that cell too if the agent
     * is dangerous or the Rock.
     */
    method ApplyAgent(a: Agent)
      requires cells.Length0 == 9 && cells.Length1 == 9 && OnGrid(a.pos)
      modifies cells
      ensures forall x, y :: 0 <= x < 9 && 0 <= y < 9 ==> cells[x, y] == Step(old(cells[x, y]), a, Point(x, y))
    {
      // perceptionPoints: the clamped zone of a dangerous agent, nothing for the others
      var points: set<Point> := {};
      for i := 0 to |a.perception|
        invariant points == if Dangerous(a.kind) then set i' | 0 <= i' < i :: Bounded(a.pos, a.perception[i']) else {}
      {
        if a.kind == Jack { continue; }
        var point := PerceptionBounds(a.pos.x, a.perception[i].x, a.pos.y, a.perception[i].y);
        if Dangerous(a.kind) { points := points + {point}; }
      }
      assert points == if Dangerous(a.kind) then Zone(a) else {};
      var rest := points;
      while rest != {}
        invariant rest <= points
        invariant forall x, y :: 0 <= x < 9 && 0 <= y < 9 ==>
          cells[x, y] == if Point(x, y) in points - rest && Point(x, y) != a.pos
                         then old(cells[x, y]).(walkable := false, danger := old(cells[x, y]).danger + 1)
                         else old(cells[x, y])
        decreases rest
      {
        var point :| point in rest;
        rest := rest - {point};
        if Dangerous(a.kind) && point != a.pos {
          cells[point.x, point.y] := cells[point.x, point.y].(walkable := false, danger := cells[point.x, point.y].danger + 1);
        }
      }
      // the agent's own cell
      var c := cells[a.pos.x, a.pos.y];
      c := c.(agents := c.agents + [Alias(a.kind)]);
      if Dangerous(a.kind) || a.kind == Rock {
        c := c.(walkable := false, danger := c.danger + 1);
      }
      cells[a.pos.x, a.pos.y] := c;
    }

    /**
     * `killKraken(cell)`: every clamped cell of the Kraken's orthogonal zone
     * around `cell`, other than `cell`, loses one danger and becomes walkable
     * when its danger reaches zero; `cell` itself loses one danger and keeps
     * its walkability.
     */
    method KillKraken(cell: Point)
      requires cells.Length0 == 9 && cells.Length1 == 9 && OnGrid(cell)
      requires |agents| == 6 && agents[KrakenIx].perception == Orthogonal
      modifies cells
      ensures forall x, y :: 0 <= x < 9 && 0 <= y < 9 ==>
        cells[x, y] == Killed(old(cells[x, y]), agents[KrakenIx].perception, cell, Point(x, y))
    {
      var perception := agents[KrakenIx].perception;
      for i := 0 to |perception|
        invariant forall x, y :: 0 <= x < 9 && 0 <= y < 9 ==>
          cells[x, y] == if Point(x, y) != cell && HitBefore(perception, i, cell, Point(x, y))
                         then Decremented(old(cells[x, y])) else old(cells[x, y])
      {
        var point := PerceptionBounds(cell.x, perception[i].x, cell.y, perception[i].y);
        if point != cell {
          if HitBefore(perception, i, cell, point) {
            var j :| 0 <= j < i && Bounded(cell, perception[j]) == point;
            KillTargetsDistinct(cell, i, j);
          }
          DecrementCell(point);
        }
        forall q | OnGrid(q) ensures HitBefore(perception, i + 1, cell, q) <==> HitBefore(perception, i, cell, q) || q == point {
          HitBeforeNext(perception, i, cell, q);
        }
      }
      cells[cell.x, cell.y] := cells[cell.x, cell.y].(danger := cells[cell.x, cell.y].danger - 1);
    }

    /** The decrement of one zone cell in `killKraken`. */
    method DecrementCell(p: Point)
      requires cells.Length0 == 9 && cells.Length1 == 9 && OnGrid(p)
      modifies cells
      ensures forall x, y :: 0 <= x < 9 && 0 <= y < 9 ==>
        cells[x, y] == if Point(x, y) == p then Decremented(old(cells[x, y])) else old(cells[x, y])
    {
      var d := cells[p.x, p.y].danger - 1;
      cells[p.x, p.y] := cells[p.x, p.y].(danger := d);
      if d == 0 {
        cells[p.x, p.y] := cells[p.x, p.y].(walkable := true);
      }
    }

    /** `clearPathsForAllCells`: every cell's backtracking value back to `Integer.MAX_VALUE`, nothing else touched. */
    method ClearPathsForAllCells()
      requires cells.Length0 == 9 && cells.Length1 == 9
      modifies cells
      ensures forall x, y :: 0 <= x < 9 && 0 <= y < 9 ==> cells[x, y] == old(cells[x, y]).(bestPath := IntMax)
    {
      for x := 0 to 9
        invariant forall x', y' :: 0 <= x' < 9 && 0 <= y' < 9 ==>
          cells[x', y'] == if x' < x then old(cells[x', y']).(bestPath := IntMax) else old(cells[x', y'])
      {
        for y := 0 to 9
          invariant forall x', y' :: 0 <= x' < 9 && 0 <= y' < 9 ==>
            cells[x', y'] == if x' < x || (x' == x && y' < y) then old(cells[x', y']).(bestPath := IntMax) else old(cells[x', y'])
        {
          cells[x, y] := cells[x, y].(bestPath := IntMax);
        }
      }
    }

    /**
     * A kill as both engines perform it: `killKraken(cell)`, then `cell` made
     * walkable if no Rock stands on it and its danger has reached zero.
     */
    method KillAndClear(cell: Point)
      requires Valid() && OnGrid(cell)
      modifies cells
      ensures forall x, y :: 0 <= x < 9 && 0 <= y < 9 ==> cells[x, y] == AfterKill(old(cells[x, y]), cell, Point(x, y))
      ensures forall x, y :: 0 <= x < 9 && 0 <= y < 9 ==> Opened(old(cells[x, y]), cells[x, y])
    {
      KillKraken(cell);
      if 'R' !in cells[cell.x, cell.y].agents && cells[cell.x, cell.y].danger == 0 {
        cells[cell.x, cell.y] := cells[cell.x, cell.y].(walkable := true);
      }
      forall x, y | 0 <= x < 9 && 0 <= y < 9 ensures Opened(old(cells[x, y]), cells[x, y]) {
        KilledOpens(old(cells[x, y]), cell, Point(x, y));
      }
    }
  }
}
