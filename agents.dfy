/**
 * The agents placed on the 9x9 sea map: Jack Sparrow, Davy Jones, the Kraken,
 * the Rock, the Dead Man's Chest and Tortuga, with the perception offsets each
 * kind of agent carries.
 */
module Agents {

  /** A grid position or a relative offset, as the source's `Point<Integer, Integer>`. */
  datatype Point = Point(x: int, y: int)

  datatype Option<T> = None | Some(value: T)

  /** The six kinds of agent; the source has one subclass of `Agent` per kind. */
  datatype Kind = Jack | DavyJones | Kraken | Rock | Chest | Tortuga

  /** The offset every agent perceives by default: its own cell. */
  const SelfOffset := Point(0, 0)

  /** The eight cells around an agent, in the order the source lists them. */
  const Surrounding: seq<Point> :=
    [Point(-1, -1), Point(0, -1), Point(1, -1),
     Point(-1, 0), Point(1, 0),
     Point(-1, 1), Point(0, 1), Point(1, 1)]

  /** The four orthogonal neighbours (top, left, right, bottom). */
  const Orthogonal: seq<Point> := [Point(0, -1), Point(-1, 0), Point(1, 0), Point(0, 1)]

  /** Jack's perception in scenario 2: the ring of eight plus the cells two steps away on each axis. */
  const Extended: seq<Point> :=
    [Point(0, -2),
     Point(-1, -1), Point(0, -1), Point(1, -1),
     Point(-2, 0), Point(-1, 0), Point(1, 0), Point(2, 0),
     Point(-1, 1), Point(0, 1), Point(1, 1),
     Point(0, 2)]

  function Abs(v: int): int { if v < 0 then -v else v }

  /** Chebyshev norm of an offset. */
  function Norm(o: Point): int { if Abs(o.x) < Abs(o.y) then Abs(o.y) else Abs(o.x) }

  /**
   * The perception table: the offsets an agent of kind `k` carries when it is
   * built while the map's scenario is `scenario`. Only Jack's entry depends on
   * the scenario; for a scenario other than 1 and 2 Jack keeps the default.
   */
  function Perception(k: Kind, scenario: int): seq<Point>
  {
    match k
    case DavyJones => Surrounding
    case Kraken => Orthogonal
    case Jack =>
      if scenario == 1 then Surrounding
      else if scenario == 2 then Extended
      else [SelfOffset]
    case _ => [SelfOffset]
  }


  /**
   * The shape of each table entry: Davy Jones (and Jack in scenario 1) sees the
   * Chebyshev ring of radius 1, the Kraken the four orthogonal cells, Jack in
   * scenario 2 the ring plus the cells two steps away along an axis, and every
   * other agent only its own cell.
   */
  lemma PerceptionShape(k: Kind, scenario: int, o: Point)
    ensures k == DavyJones || (k == Jack && scenario == 1) ==>
      (o in Perception(k, scenario) <==> Norm(o) == 1)
    ensures k == Kraken ==> (o in Perception(k, scenario) <==> Abs(o.x) + Abs(o.y) == 1)
    ensures k == Jack && scenario == 2 ==>
      (o in Perception(k, scenario) <==> Norm(o) == 1 || (Abs(o.x) + Abs(o.y) == 2 && (o.x == 0 || o.y == 0)))
    ensures k in {Rock, Chest, Tortuga} || (k == Jack && scenario != 1 && scenario != 2) ==>
      Perception(k, scenario) == [SelfOffset]
  {
  }

  /** Only Davy Jones and the Kraken are built as dangerous; the Rock blocks its own cell only. */
  predicate Dangerous(k: Kind) { k == DavyJones || k == Kraken }

  /** The one-character alias an agent leaves in the cell it stands on. */
  function Alias(k: Kind): (a: char)
    ensures a == 'K' <==> k == Kraken
    ensures a == 'R' <==> k == Rock
  {
    match k
    case Jack => 'J'
    case DavyJones => 'D'
    case Kraken => 'K'
    case Rock => 'R'
    case Chest => 'C'
    case Tortuga => 'T'
  }

  /** An agent: its kind, the cell it stands on and the offsets it perceives. */
  datatype Agent = Agent(kind: Kind, pos: Point, perception: seq<Point>)

  /** The order of the map's agent list: jack, davyJones, kraken, rock, chest, tortuga. */
  const Order: seq<Kind> := [Jack, DavyJones, Kraken, Rock, Chest, Tortuga]

  const JackIx := 0
  const KrakenIx := 2
  const RockIx := 3
  const ChestIx := 4
  const TortugaIx := 5

  predicate OnGrid(p: Point) { 0 <= p.x <= 8 && 0 <= p.y <= 8 }

  /**
   * The agent list `isCorrect` is asked about: one agent of each kind in
   * `Order`, each but Jack with its kind's perception. Jack's perception is
   * whatever the scenario was when he was built. Nothing bounds the
   * positions: a map read from text may put a coordinate at 9.
   */
  predicate Listed(agents: seq<Agent>)
  {
    && |agents| == 6
    && (forall i :: 0 <= i < 6 ==> agents[i].kind == Order[i])
    && (forall i :: 1 <= i < 6 ==> agents[i].perception == Perception(Order[i], 1))
  }

  /** The agent list of a generated map: `Listed`, with every agent on the grid. */
  predicate Placed(agents: seq<Agent>)
  {
    Listed(agents) && forall i :: 0 <= i < 6 ==> OnGrid(agents[i].pos)
  }
}
