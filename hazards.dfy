/**
 * What the agents do to the cells of the map: the danger level a cell
 * receives from the hazards around it (the counting rule of `Map.fillCells`),
 * the aliases left in each cell, and the placement rules of `Map.isCorrect`.
 */
module Hazards {
  import opened Agents
  import opened Geometry

  /** The clamped cells an agent's perception reaches: `perceptionPoints` in `fillCells`, a set. */
  function Zone(a: Agent): set<Point>
  {
    set k | 0 <= k < |a.perception| :: Bounded(a.pos, a.perception[k])
  }

  /**
   * What one agent adds to the danger level of cell `p`: one if it is dangerous
   * and its zone covers `p` (its own cell excluded), and one more if `p` is its
   * own cell and it is dangerous or the Rock.
   */
  function AgentDanger(a: Agent, p: Point): nat
  {
    (if Dangerous(a.kind) && p in Zone(a) && p != a.pos then 1 else 0)
    + (if (Dangerous(a.kind) || a.kind == Rock) && p == a.pos then 1 else 0)
  }

  /** The danger level `fillCells` gives cell `p`: the agents' contributions summed in list order. */
  function DangerAt(agents: seq<Agent>, p: Point): nat
  {
    if agents == [] then 0
    else DangerAt(agents[..|agents| - 1], p) + AgentDanger(agents[|agents| - 1], p)
  }

  /** The aliases `fillCells` appends to cell `p`, in agent-list order. */
  function AliasesAt(agents: seq<Agent>, p: Point): seq<char>
  {
    if agents == [] then []
    else
      AliasesAt(agents[..|agents| - 1], p)
      + (if agents[|agents| - 1].pos == p then [Alias(agents[|agents| - 1].kind)] else [])
  }

  /** The two pairs of kinds that may share a cell: Rock with Kraken, Jack with Tortuga. */
  predicate SharingAllowed(a: Kind, b: Kind)
  {
    (a == Rock && b == Kraken) || (a == Kraken && b == Rock) ||
    (a == Tortuga && b == Jack) || (a == Jack && b == Tortuga)
  }

  /** Some unclamped perception offset of `a` lands exactly on `p`. */
  predicate Reaches(a: Agent, p: Point)
  {
    exists k :: 0 <= k < |a.perception| && Translate(a.pos, a.perception[k]) == p
  }

  /**
   * The placement rules a generated map must meet: Jack at (0, 0); no two
   * agents on one cell except Rock with Kraken and Jack with Tortuga; no
   * unclamped zone cell of a dangerous agent on Tortuga or on the Chest.
   */
  predicate ValidPlacement(agents: seq<Agent>)
    requires |agents| == 6
  {
    && agents[JackIx].pos == Point(0, 0)
    && (forall i, j :: 0 <= i < 6 && 0 <= j < 6 && i != j && agents[i].pos == agents[j].pos ==>
          SharingAllowed(agents[i].kind, agents[j].kind))
    && (forall i, j :: 0 <= i < 6 && 0 <= j < 6 && Dangerous(agents[i].kind) && agents[j].kind in {Tortuga, Chest} ==>
          !Reaches(agents[i], agents[j].pos))
  }

  /** The source's `valid` flag: the pair for which `isCorrect` compares zone offsets with a spawn cell. */
  predicate ZoneChecked(first: Kind, second: Kind)
  {
    (Dangerous(first) && second == Tortuga) || (first == Tortuga && Dangerous(second)) ||
    (Dangerous(first) && second == Chest) || (first == Chest && Dangerous(second))
  }

  /** The ordered pair (i, j) passes both checks of the inner loop body of `isCorrect`. */
  predicate PairPasses(agents: seq<Agent>, i: int, j: int)
    requires 0 <= i < |agents| && 0 <= j < |agents|
  {
    i == j ||
    ((agents[i].pos == agents[j].pos ==> SharingAllowed(agents[i].kind, agents[j].kind)) &&
     (ZoneChecked(agents[i].kind, agents[j].kind) ==> !Reaches(agents[i], agents[j].pos)))
  }

  /**
   * `isCorrect`: the nested loops over ordered pairs of distinct agents, with
   * the early `return false` of each check. The answer is exactly the three
   * placement rules.
   */
  method IsCorrect(agents: seq<Agent>) returns (ok: bool)
    requires Listed(agents)
    ensures ok == ValidPlacement(agents)
  {
    var isCorrectMap := agents[JackIx].pos == Point(0, 0);
    for i := 0 to 6
      invariant forall i', j' :: 0 <= i' < i && 0 <= j' < 6 ==> PairPasses(agents, i', j')
    {
      for j := 0 to 6
        invariant forall i', j' :: 0 <= i' < i && 0 <= j' < 6 ==> PairPasses(agents, i', j')
        invariant forall j' :: 0 <= j' < j ==> PairPasses(agents, i, j')
      {
        if i == j { continue; }
        var pass := CheckPair(agents, i, j);
        if !pass {
          PairFails(agents, i, j);
          return false;
        }
      }
    }
    AllPairsPass(agents);
    ok := isCorrectMap;
  }

  /**
   * The body of the inner loop of `isCorrect` for two distinct agents: the
   * shared-cell check, then the comparison of the first agent's unclamped
   * offsets with the second agent's cell when the pair calls for it.
   */
  method CheckPair(agents: seq<Agent>, i: int, j: int) returns (pass: bool)
    requires 0 <= i < |agents| && 0 <= j < |agents| && i != j
    ensures pass == PairPasses(agents, i, j)
  {
    var first, second := agents[i], agents[j];
    if first.pos == second.pos && !SharingAllowed(first.kind, second.kind) {
      return false;
    }
    if ZoneChecked(first.kind, second.kind) {
      for k := 0 to |first.perception|
        invariant forall k' :: 0 <= k' < k ==> Translate(first.pos, first.perception[k']) != second.pos
      {
        if Translate(first.pos, first.perception[k]) == second.pos {
          return false;
        }
      }
    }
    return true;
  }

  /** A pair that fails the checks of `isCorrect` breaks a placement rule. */
  lemma PairFails(agents: seq<Agent>, i: int, j: int)
    requires Listed(agents) && 0 <= i < 6 && 0 <= j < 6 && !PairPasses(agents, i, j)
    ensures !ValidPlacement(agents)
  {
    var first, second := agents[i], agents[j];
    if first.pos == second.pos && !SharingAllowed(first.kind, second.kind) {
      assert !(agents[i].pos == agents[j].pos ==> SharingAllowed(agents[i].kind, agents[j].kind));
    } else {
      // Tortuga's and the Chest's only offset is their own cell, so the first
      // check already rejects them reaching a hazard.
      assert first.kind in {Tortuga, Chest} ==> first.perception == [SelfOffset];
      assert Dangerous(first.kind) && second.kind in {Tortuga, Chest};
      assert !(Dangerous(agents[i].kind) && agents[j].kind in {Tortuga, Chest} ==> !Reaches(agents[i], agents[j].pos));
    }
  }

  /** When every ordered pair passes, the sharing and zone rules hold. */
  lemma AllPairsPass(agents: seq<Agent>)
    requires Listed(agents)
    requires forall i, j :: 0 <= i < 6 && 0 <= j < 6 ==> PairPasses(agents, i, j)
    ensures agents[JackIx].pos == Point(0, 0) ==> ValidPlacement(agents)
  {
    forall i, j | 0 <= i < 6 && 0 <= j < 6 && i != j
      ensures agents[i].pos == agents[j].pos ==> SharingAllowed(agents[i].kind, agents[j].kind)
      ensures Dangerous(agents[i].kind) && agents[j].kind in {Tortuga, Chest} ==> !Reaches(agents[i], agents[j].pos)
    {
      assert PairPasses(agents, i, j);
    }
  }

  /**
   * The clamped zone of Davy Jones or the Kraken, outside the agent's own cell,
   * lies inside its unclamped zone: clamping an offset of size at most one only
   * pulls an off-grid cell back onto the agent's own row or column.
   */
  lemma ClampedZoneReached(a: Agent, q: Point)
    requires Dangerous(a.kind) && OnGrid(a.pos) && a.perception == Perception(a.kind, 1)
    requires q in Zone(a) && q != a.pos
    ensures Reaches(a, q)
  {
    var k :| 0 <= k < |a.perception| && q == Bounded(a.pos, a.perception[k]);
    var o := a.perception[k];
    PerceptionShape(a.kind, 1, o);
    var o' := Point(q.x - a.pos.x, q.y - a.pos.y);
    assert Abs(o'.x) <= Abs(o.x) && Abs(o'.y) <= Abs(o.y);
    assert o' == o || o'.x == 0 || o'.y == 0;
    PerceptionShape(a.kind, 1, o');
    var k' :| 0 <= k' < |a.perception| && a.perception[k'] == o';
    assert Translate(a.pos, a.perception[k']) == q;
  }

  /** The danger level of a cell on a map of six agents, agent by agent. */
  lemma DangerOfSix(agents: seq<Agent>, p: Point)
    requires |agents| == 6
    ensures DangerAt(agents, p) ==
      AgentDanger(agents[0], p) + AgentDanger(agents[1], p) + AgentDanger(agents[2], p) +
      AgentDanger(agents[3], p) + AgentDanger(agents[4], p) + AgentDanger(agents[5], p)
  {
    assert agents[..5][..4] == agents[..4] && agents[..5][4] == agents[4];
    assert agents[..4][..3] == agents[..3] && agents[..4][3] == agents[3];
    assert agents[..3][..2] == agents[..2] && agents[..3][2] == agents[2];
    assert agents[..2][..1] == agents[..1] && agents[..2][1] == agents[1];
    assert agents[..1][..0] == [] && agents[..1][0] == agents[0];
    assert DangerAt(agents[..1], p) == AgentDanger(agents[0], p);
    assert DangerAt(agents[..2], p) == DangerAt(agents[..1], p) + AgentDanger(agents[1], p);
    assert DangerAt(agents[..3], p) == DangerAt(agents[..2], p) + AgentDanger(agents[2], p);
    assert DangerAt(agents[..4], p) == DangerAt(agents[..3], p) + AgentDanger(agents[3], p);
    assert DangerAt(agents[..5], p) == DangerAt(agents[..4], p) + AgentDanger(agents[4], p);
  }

  /**
   * On a validly placed map, no hazard makes Tortuga's cell or the Chest's cell
   * dangerous: after `fillCells` both are walkable.
   */
  lemma {:induction false} GoalCellsSafe(agents: seq<Agent>, target: int)
    requires Placed(agents) && ValidPlacement(agents)
    requires target == TortugaIx || target == ChestIx
    ensures DangerAt(agents, agents[target].pos) == 0
  {
    var p := agents[target].pos;
    DangerOfSix(agents, p);
    forall i | 0 <= i < 6 ensures AgentDanger(agents[i], p) == 0 {
      var a := agents[i];
      assert Dangerous(a.kind) ==> !Reaches(a, p);
      assert a.pos == p && i != target ==> SharingAllowed(a.kind, agents[target].kind);
      if Dangerous(a.kind) && p in Zone(a) && p != a.pos {
        ClampedZoneReached(a, p);
        assert false;
      }
    }
  }

  /**
   * The Kraken's own cell, and every clamped cell of its zone other than its
   * own, carry danger at least one after `fillCells`: the counters that
   * `killKraken` decrements start positive.
   */
  lemma {:induction false} KrakenCellsDangerous(agents: seq<Agent>, q: Point)
    requires Placed(agents)
    requires q == agents[KrakenIx].pos || (q in Zone(agents[KrakenIx]) && q != agents[KrakenIx].pos)
    ensures DangerAt(agents, q) >= 1
  {
    DangerOfSix(agents, q);
  }

  /** Every alias in a cell's list comes from an agent standing on that cell. */
  lemma {:induction false} AliasSource(agents: seq<Agent>, p: Point, ch: char)
    requires ch in AliasesAt(agents, p)
    ensures exists i :: 0 <= i < |agents| && agents[i].pos == p && Alias(agents[i].kind) == ch
  {
    var n := |agents| - 1;
    if ch in AliasesAt(agents[..n], p) {
      AliasSource(agents[..n], p, ch);
      var i :| 0 <= i < n && agents[..n][i].pos == p && Alias(agents[..n][i].kind) == ch;
      assert agents[i] == agents[..n][i];
    } else {
      assert agents[n].pos == p && Alias(agents[n].kind) == ch;
    }
  }

  /** Conversely, every agent standing on a cell leaves its alias in that cell's list. */
  lemma {:induction false} AliasPresent(agents: seq<Agent>, p: Point, i: int)
    requires 0 <= i < |agents| && agents[i].pos == p
    ensures Alias(agents[i].kind) in AliasesAt(agents, p)
  {
    var n := |agents| - 1;
    if i < n {
      AliasPresent(agents[..n], p, i);
      assert agents[..n][i] == agents[i];
    }
  }

  /** The Kraken's alias marks exactly the Kraken's cell: `contains('K')` finds the Kraken and nothing else. */
  lemma KrakenAliasOnly(agents: seq<Agent>, p: Point)
    requires Listed(agents)
    ensures 'K' in AliasesAt(agents, p) <==> p == agents[KrakenIx].pos
  {
    if 'K' in AliasesAt(agents, p) {
      AliasSource(agents, p, 'K');
      var i :| 0 <= i < |agents| && agents[i].pos == p && Alias(agents[i].kind) == 'K';
      assert agents[i].kind == Order[i] == Kraken;
    }
    if p == agents[KrakenIx].pos {
      AliasPresent(agents, p, KrakenIx);
    }
  }
}
