# Jack Sparrow's route to the Dead Man's Chest, in Dafny

The program puts six agents on a 9x9 sea map: Jack Sparrow at (0, 0), Davy
Jones, the Kraken, a Rock, the Dead Man's Chest and the island of Tortuga. It
then searches for the shortest route from Jack to the Chest. The route either
goes straight there or passes through Tortuga first. On the leg from Tortuga
to the Chest, Jack carries rum casks and can kill the Kraken. Two engines do
the search: A\* and an exhaustive depth-first backtracking search with a
depth cap.

This project models the core of `Main.java`:

- **Perception tables.** The offsets each agent perceives, which depend on
  the scenario for Jack (`Agents`).
- **Grid geometry.** Clamping of perception points to the grid
  (`getPerceptionBounds`) and the neighbour cells of a cell under scenarios 1
  and 2 (`getNeighbourCells`), in `Geometry`.
- **Hazards.** The danger count `fillCells` gives each cell, the aliases left
  in each cell, and the placement rules of `isCorrect` (`Hazards`).
- **The map.** A `Map` class over a 9x9 `array2` of cells, with `fillCells`,
  `killKraken`, `clearPathsForAllCells` and the cell invariant "walkable
  exactly when the danger level is zero" (`Grid`).
- **Routes.** Walks over an adjacency function, reversal, removal of a
  first occurrence, and the choice between the direct route and the route
  through Tortuga (`Routes`).
- **A\*.** `findShortestPath`, `shortestPath` (open list, closed list,
  selection by f-cost then h-cost, kill of the Kraken, cost relaxation),
  `tracePath` and `getDistanceBetween` (`AStarSearch`).
- **Backtracking.** `findShortestPath` and its three phases, the recursive
  `shortestPath` with the `visited` array and the per-cell best depth,
  `hasUnvisitedNeighbours`, `canWalkThrough` and the recursive `tracePath`
  (`BacktrackingSearch`).

How the model is built:

- Each `MapCell` object is only ever reached as `cells[x][y]`, so it is
  modelled as a value stored in the map's array at its own position.
- The iteration order of a `HashSet` (neighbour sets and perception-point
  sets) is unspecified. Every loop over one picks its next element by
  arbitrary choice, so what is proved holds for every iteration order.
- `Integer.MAX_VALUE` appears as the constant `IntMax`, and integers are
  unbounded. Danger levels stay below 7 and depths below 27. The one sum
  that can wrap around in Java is `neighbour.currentBestPath + 1` in
  `tracePath` (Main.java:1267): a neighbour the search never reached still
  holds `Integer.MAX_VALUE`, and the sum wraps to `Integer.MIN_VALUE`. The
  wrap is harmless, because the traced cell's depth lies in 0..26 and
  equals neither the wrapped value nor the model's `IntMax + 1`.
- The Kraken's alias `'K'` lies only on the Kraken's cell after every fill
  (`Map.KrakenMarked`, established by the constructor and kept by refills,
  see `FilledMarksKraken`). On such a map the kill blocks of both engines
  make exactly one kill, at the Kraken's cell, and their contracts give the
  whole resulting map as `AfterKill`.

Quirks of the code that the model keeps:

- `fillCells(true)` resets danger and walkability but appends every alias
  again (Main.java:645), so a second refill is not the identity. It
  only leaves danger and walkability unchanged.
- A\* refills the map only on the path that returns a route
  (Main.java:999); a `null` result leaves the kill's effects in place.
  Its `tortugaPassed` and `krakenPassed` flags are never reset
  (Main.java:936-937).
- The backtracking depth cap admits a depth of 26: the recursion continues
  while `currentPath <= 25` (Main.java:1222).
- Backtracking does not clear the per-cell best depths between the direct
  phase and the phase to Tortuga. It clears them only before the phase from
  Tortuga (Main.java:1145). It refills the map after the direct phase only
  when that phase failed (Main.java:1140).
- Backtracking kills the Kraken once per recursive call, not once per
  search. `krakenIsAlive` is a parameter of each call, and the only guard
  against a second kill is the Kraken cell's danger level
  (Main.java:1204). `RepeatedKill` exhibits a valid placement on which a
  second kill happens and drives a cell's danger level to -1.

## Model

| member | source | states |
|---|---|---|
| Agents.Alias | Main.java:411-533 | The alias `'K'` belongs to the Kraken and no other kind, and `'R'` to the Rock and no other kind, so the `contains('K')` and `contains('R')` tests identify them. |
| Agents.PerceptionShape | Main.java:386-526 | Davy Jones and scenario-1 Jack perceive exactly the 8 offsets of Chebyshev norm 1. The Kraken perceives exactly the 4 orthogonal unit offsets. Scenario-2 Jack perceives those 8 plus the 4 offsets two steps along one axis. Every other agent, and Jack in any other scenario, perceives only its own cell. |
| Geometry.PerceptionBounds | Main.java:821-833 | The clamped point is on the grid, and each coordinate equals the raw sum whenever that sum lies in 0..8. |
| Geometry.PerceptionBoundsNearest | Main.java:821-833 | On each axis, the clamped coordinate is at least as close to the raw sum as any grid coordinate. |
| Geometry.PerceivedNeighbours | Main.java:576-583 | A cell is a scenario-1 neighbour iff it is on the grid and equals the cell moved by one of Jack's perception offsets. An offset that leaves the grid is dropped, not clamped. |
| Geometry.RingNeighbours | Main.java:584-596 | A cell is a scenario-2 neighbour iff it is on the grid, differs from the cell and lies within Chebyshev distance 1. |
| Geometry.Neighbours | Main.java:573-599 | Every neighbour is on the grid. Scenario 2 gives exactly the ring. Any scenario other than 1 and 2 gives no neighbours. |
| Geometry.ScenarioOneIsRing | Main.java:573-599 | With the perception Jack gets in scenario 1, the scenario-1 neighbours of every cell are exactly its scenario-2 ring. |
| Geometry.ExtendedPerceptionReach | Main.java:576-583 | Neighbours are computed under scenario 1 with Jack's scenario-2 perception. A cell is then a neighbour iff it is on the grid and either in the ring or two steps away along one axis. |
| Hazards.IsCorrect | Main.java:703-741 | For six agents in list order at any coordinates, on the grid or not, the answer is true iff all three hold: Jack stands at (0, 0); no two agents share a cell except Rock with Kraken and Jack with Tortuga; no unclamped perception offset of Davy Jones or the Kraken lands on Tortuga or on the Chest. |
| Hazards.CheckPair | Main.java:709-736 | For two distinct agents, the inner-loop body passes iff they do not share a cell outside the two allowed pairs and, when one is Davy Jones or the Kraken and the other Tortuga or the Chest, no offset of the first lands on the second's cell. |
| Hazards.PairFails | Main.java:706-736 | Any ordered pair that fails the inner-loop checks breaks the sharing rule or the hazard-zone rule, so returning false early is right. |
| Hazards.AllPairsPass | Main.java:703-741 | When every ordered pair passes, and Jack also stands at (0, 0), the placement is valid. |
| Hazards.ClampedZoneReached | Main.java:627-641 | A clamped zone cell of Davy Jones or the Kraken, other than its own cell, is also reached by an unclamped offset. So the unclamped check of `isCorrect` protects the clamped zone too. |
| Hazards.DangerOfSix | Main.java:625-650 | The danger level of a cell is the sum of the six agents' contributions. |
| Hazards.GoalCellsSafe | Main.java:703-741 | On a placement `isCorrect` accepts, `fillCells` gives Tortuga's cell and the Chest's cell danger level 0. |
| Hazards.KrakenCellsDangerous | Main.java:625-650 | The Kraken's own cell and every cell of its clamped zone get a danger level of at least 1. |
| Hazards.AliasSource | Main.java:645 | Every alias in a cell's list comes from an agent standing on that cell. |
| Hazards.AliasPresent | Main.java:645 | Every agent standing on a cell leaves its alias in that cell's list. |
| Hazards.KrakenAliasOnly | Main.java:645 | A cell's aliases from one fill contain `'K'` iff the cell is the Kraken's. |
| Grid.FilledMarksKraken | Main.java:604-652 | After `fillCells`, a cell holds `'K'` iff it is the Kraken's cell or it is a refill and the cell held `'K'` before. |
| Grid.StepApplied | Main.java:625-650 | One pass of the agent loop turns the cell state after a prefix of the agents into the state after that prefix plus the next agent. |
| Grid.Filled | Main.java:604-652 | After `fillCells`, a cell is walkable iff its danger level is zero. The danger level is the hazard count, the same with or without refill. On refill the old aliases stay and the agents' aliases are appended again; a fresh fill starts from an empty list. The scratch values are kept on refill and reset otherwise. |
| Grid.Map.constructor | Main.java:657-671 | For a placement `isCorrect` accepts, every cell of the generated map is the freshly filled cell for its position, and `'K'` lies on the Kraken's cell only. |
| Grid.Map.FillCells | Main.java:604-652 | Every cell becomes `Filled` of its old value, the refill flag, the agents and its position. |
| Grid.Map.ResetCells | Main.java:607-620 | The first phase of `fillCells`: a fresh cell without refill, the old cell with danger 0 and walkable with refill. |
| Grid.Map.ApplyAgents | Main.java:625-650 | After the loop over all agents, every cell carries their summed danger and their aliases in list order. |
| Grid.Map.ApplyAgent | Main.java:626-649 | One agent adds its danger to each cell of its clamped zone outside its own cell, blocks those cells, and records its alias (and its own danger) on its cell. |
| Grid.KillZone | Main.java:841-848 | A cell is in the kill zone iff it is not the Kraken's cell and some clamped Kraken offset around that cell lands on it. |
| Grid.KillTargetsDistinct | Main.java:841-848 | Distinct orthogonal offsets give distinct clamped cells apart from the Kraken's own cell, so each zone cell is decremented exactly once. |
| Grid.Map.KillKraken | Main.java:840-852 | Every cell becomes `Killed` of its old value. The Kraken's cell loses one danger level. Each zone cell loses one and becomes walkable when it reaches zero. All other cells are unchanged. |
| Grid.Map.DecrementCell | Main.java:845-847 | Only the given cell changes: one less danger, and walkable once the danger reaches zero. |
| Grid.KillKeepsBalance | Main.java:1048-1054 | A kill on a filled or refilled map, followed by clearing the Kraken's cell, keeps every cell walkable exactly when its danger level is zero. |
| Grid.KilledOpens | Main.java:840-852 | A kill followed by the engines' fix-up never blocks a cell, never raises a danger level, and changes nothing but danger levels and walkability. Cells outside the Kraken's cell and its orthogonal zone do not change. |
| Grid.Map.KillAndClear | Main.java:1048-1054 | Kill then clear: every cell becomes `AfterKill` of its old value, which is `Killed`, and also `Cleared` on the Kraken's cell (walkable when no Rock and danger zero). No cell is blocked and no danger rises. |
| Grid.Map.ClearPathsForAllCells | Main.java:863-869 | Every cell's best depth becomes `Integer.MAX_VALUE`, and nothing else changes. |
| Routes.WalkCons | Main.java:1094-1097 | A step to a neighbour followed by a walk is a walk with the same end. |
| Routes.WalkConcat | Main.java:983-990 | A walk to a point followed by a walk from that point is a walk to the second walk's end. |
| Routes.WalkStaysInside | Main.java:1060-1076 | Take a set of cells that contains the start and is closed under walkable neighbours. A walk over walkable cells from the start never leaves it. |
| Routes.Reversed | Main.java:1099 | The reversal has the same length, and its element i is the input's element \|s\|-1-i. |
| Routes.ReversedSnoc | Main.java:1099 | Reversing s + [x] gives [x] followed by the reversal of s. |
| Routes.RemoveFirst | Main.java:1037 | List removal of the first occurrence: one element shorter when present, unchanged otherwise, nothing else lost, distinctness kept. |
| Routes.RemoveFirstSplits | Main.java:1037 | When `x` is present, the result is the list with its first occurrence of `x` cut out, the elements before and after it kept in order. |
| Routes.RemoveFirstAt | Main.java:1037 | Cutting at the first index holding `x` is exactly what `RemoveFirst` does. |
| Routes.Without | Main.java:1158-1161 | The kept cells are exactly the listed cells other than Tortuga, and the result is unchanged when Tortuga is absent. |
| Routes.WithoutOne | Main.java:1158-1161 | A single cell is kept iff it is not Tortuga. |
| Routes.WithoutConcat | Main.java:1158-1161 | Skipping Tortuga distributes over concatenation, so the kept cells keep their order. |
| Routes.Choose | Main.java:1154-1157 | No route iff neither route exists. The route through Tortuga is chosen only when it exists and is strictly shorter than the direct route, or the direct route does not exist; a tie goes to the direct route. |
| AStarSearch.DistanceBetween | Main.java:1103-1108 | The distance is at least each coordinate difference and equals one of them: the Chebyshev distance. |
| AStarSearch.Relaxed | Main.java:1062-1075 | Only the cost fields and the parent change, and a blocked cell does not change. A walkable cell whose cost through the current cell is lower, or which was not open, always gets that cost as g (the Chebyshev step cost), its Chebyshev distance to the finish as h, and the current cell as parent. Any change is of that form. |
| AStarSearch.SizeOf | Main.java:981 | The size is known iff the route exists. |
| AStarSearch.SizeOfBoth | Main.java:970 | The combined size is known iff both legs exist. |
| AStarSearch.Assembled | Main.java:976-996 | `null` iff there is no direct route and the Tortuga route is incomplete. Otherwise the result starts with Jack's cell and continues with exactly the direct route or the two Tortuga legs, with the length bounds that follow. |
| AStarSearch.AssembledWalk | Main.java:976-996 | If each leg is a walk ending where it should, the assembled route after Jack is a walk from Jack to the Chest. |
| AStarSearch.AStar.constructor | Main.java:936-937 | A fresh engine has neither flag set. |
| AStarSearch.AStar.RelaxInForest | Main.java:1060-1076 | The relaxation keeps the parent links a forest rooted at the start. The open list grows by exactly the walkable neighbours that are neither closed nor open, and stays free of duplicates. |
| AStarSearch.AStar.SelectCurrent | Main.java:1021-1030 | No open cell is better than the chosen one (lower f-cost, or equal f-cost and lower h-cost). The chosen one is strictly better than every open cell before it, so it is the first among ties. |
| AStarSearch.AStar.KillNearby | Main.java:1044-1057 | `krakenPassed` becomes set iff it was set or some neighbour holds the Kraken's alias. No cell is blocked and no danger rises. Nothing changes when no neighbour holds the alias. On a map where `'K'` marks the Kraken's cell alone, every cell becomes `AfterKill` at the Kraken's cell when that cell is a neighbour, and stays as it was otherwise. |
| AStarSearch.AStar.KillInForest | Main.java:1044-1057 | The kill keeps the parent forest, never clears `krakenPassed` and never blocks a cell. |
| AStarSearch.AStar.RelaxOne | Main.java:1062-1075 | Only the neighbour's cell changes, by `Relaxed` unless it is closed. It is newly opened iff it is not closed, is walkable and was not open. |
| AStarSearch.AStar.Relax | Main.java:1060-1076 | Every non-closed neighbour is relaxed and all other cells are unchanged. The open list grows by exactly the newly opened cells. |
| AStarSearch.AStar.TracePath | Main.java:1088-1101 | Following parents back from the finish and reversing gives a walk from the start to the finish over walkable, already seen cells, none of them the start. |
| AStarSearch.AStar.Expand | Main.java:1035-1076 | One iteration moves the current cell to the closed set and keeps the search invariant. Outside kill mode it leaves danger and walkability unchanged. |
| AStarSearch.AStar.Unreachable | Main.java:1019-1079 | When the open list runs empty outside kill mode, no walk over walkable cells leads from the start to the finish. |
| AStarSearch.AStar.ShortestPath | Main.java:1009-1080 | A returned route is a walk from the start to the finish over walkable cells. `null` outside kill mode means the finish is unreachable. |
| AStarSearch.AStar.Search | Main.java:1009-1080 | The same, stated against the walkable cells before the call. No alias list changes. |
| AStarSearch.AStar.FindShortestPath | Main.java:943-1002 | The result is `Assembled` from the three searches. When present, it is a walk from Jack to the Chest. A failed search outside kill mode means its target is unreachable. `tortugaPassed` is set iff the leg to Tortuga succeeded. Only a non-null result comes with the refill: counted danger, balanced cells and aliases appended again. |
| BacktrackingSearch.Traced | Main.java:1256-1273 | The traced list holds the start list and the trail, reversed exactly when the trace ran its full number of steps. |
| BacktrackingSearch.TracedCons | Main.java:1266-1271 | Appending a cell to the list and tracing one step fewer equals tracing with that cell in front of the trail. |
| BacktrackingSearch.Found | Main.java:1137 | A depth is a result iff it is not `Integer.MAX_VALUE`. |
| BacktrackingSearch.ThroughTortuga | Main.java:1143-1151 | The Tortuga route has a depth iff both legs found one. |
| BacktrackingSearch.Collected | Main.java:1154-1170 | `null` iff no route was chosen. The direct choice returns the straight buffer. The Tortuga choice returns the leg to Tortuga without Tortuga, followed by the leg from Tortuga. |
| BacktrackingSearch.CollectedEnds | Main.java:1154-1170 | If the chosen buffer holds a completed trace, the collected route ends at the Chest. |
| BacktrackingSearch.ChestApart | Main.java:703-741 | On a placement `isCorrect` accepts, the Chest and Tortuga stand on different cells. |
| BacktrackingSearch.RepeatedKill | Main.java:1201-1216 | There is a valid scenario-1 placement where Tortuga has two walkable neighbours, both next to the Kraken. After one kill the Kraken's cell still passes the kill guard. A second kill leaves Davy Jones's cell walkable and a cell at danger -1 yet walkable. |
| BacktrackingSearch.FirstKill | Main.java:1201-1216 | On that placement, one kill leaves the Kraken's alias and danger level 1 on its cell. |
| BacktrackingSearch.SecondKill | Main.java:840-852 | On that placement, a second kill makes Davy Jones's own cell walkable and breaks the cell invariant above the Kraken. |
| BacktrackingSearch.FarNotReached | Main.java:730-735 | A hazard's offsets never land on a cell more than one step away from it. |
| BacktrackingSearch.Backtracking.constructor | Main.java:1112-1116 | The three route buffers start empty and no cell is visited. |
| BacktrackingSearch.Backtracking.WalkThroughWalkable | Main.java:1252-1254 | `canWalkThrough` (`CanWalkThrough`) holds iff the cell is one of the map's walkable cells and is not visited. |
| BacktrackingSearch.Backtracking.HasUnvisitedNeighbours | Main.java:1239-1254 | The answer is true iff some neighbour is walkable and not visited. |
| BacktrackingSearch.Backtracking.Predecessor | Main.java:1266-1272 | A neighbour is found only if its best depth is one less than the cell's. If none is found, no neighbour has that depth. |
| BacktrackingSearch.Backtracking.DescendsCons | Main.java:1266-1271 | A neighbour one depth lower, in front of a descending trail, gives a descending trail. |
| BacktrackingSearch.Backtracking.TracePath | Main.java:1256-1273 | The trail is a walk from the finish whose cells each have best depth one lower than the last and number at most the depth. The list is `Traced` from it. A trace that stops early stops at a cell with no neighbour one depth lower. |
| BacktrackingSearch.Backtracking.Arrive | Main.java:1179-1193 | At the goal, exactly the buffer chosen by the goal cell and `tortugaPassed` receives a trace of that depth. The other buffers are unchanged. |
| BacktrackingSearch.Backtracking.KillAdjacent | Main.java:1203-1214 | A kill happens iff some neighbour holds the Kraken's alias with a danger level other than 0. No cell is blocked, no danger rises, and nothing changes without a kill. On a map where `'K'` marks the Kraken's cell alone, a kill leaves every cell at `AfterKill` of the Kraken's cell. |
| BacktrackingSearch.Backtracking.KillStep | Main.java:1201-1216 | The Kraken stays alive iff it was alive and not (Tortuga passed, some neighbour walkable and unvisited, and some neighbour holding a live Kraken). When it stays alive, or was already dead, no cell changes. When this call kills it on a map where `'K'` marks the Kraken's cell alone, every cell becomes `AfterKill` of the Kraken's cell. |
| BacktrackingSearch.Backtracking.Enter | Main.java:1196-1216 | The current cell is marked visited and no other mark changes. Cells change only by a recorded depth of at most 26, and by the kill only when Tortuga was passed and the Kraken was alive. The Kraken stays alive only if it was alive. |
| BacktrackingSearch.Backtracking.ShortestPath | Main.java:1175-1233 | The returned depth never exceeds the best so far, and a new best lies between the current depth and 26. `visited` is restored. Only best depths change, plus danger and walkability in kill mode. A strictly better depth leaves a trace of that depth in the goal's buffer, and no other buffer changes. |
| BacktrackingSearch.Backtracking.Explore | Main.java:1218-1227 | The neighbour loop: the same promises for the best depth over all recursive calls it makes. |
| BacktrackingSearch.Backtracking.Phase | Main.java:1135-1147 | A top-level call with nothing visited leaves nothing visited and returns `Integer.MAX_VALUE` or a depth in 0..26. A found depth comes with a trace of that depth in the goal's buffer. |
| BacktrackingSearch.Backtracking.TortugaLegs | Main.java:1143-1152 | The leg from Tortuga runs iff the leg to Tortuga succeeded. Each found leg has a traced buffer. The straight buffer is untouched. |
| BacktrackingSearch.Backtracking.FindShortestPath | Main.java:1122-1173 | The result is `Collected` from the buffers by `Choose` over the found depths. It is `null` iff neither the direct route nor both Tortuga legs were found. Every found depth lies in 0..26 with a trace in its buffer. `visited` ends all false. |

## Left out

- Reading input, printing, `main`, `processInvalidData` and the output files are I/O and are not modelled.
- The `Analysis` class compares the engines statistically over random maps. It is not part of the core.
- The random placement loop of `generate()` depends on `Random`. The constructor starts from the placement that loop ends with, which `isCorrect` accepts.
- Parsing a map from text (`generate(String)`) is not modelled: the constructor takes the parsed placement.
- Grid.Map.constructor: it requires every agent on the grid. `generate(String)` reads each coordinate from one digit (Main.java:680-685), so a 9 can reach `isCorrect`, which never checks bounds. `IsCorrect` is stated for such placements too, but when it accepts one, `fillCells` indexes outside the array at Main.java:645 and the source throws. That crash is not modelled.
- Rendering (`makeAsciiMap`, `print`, `_print`, `clearPath`) and the `Point` accessors are presentation only.
- Grid.Map.FillCells: without refill the source allocates new cell objects; the model overwrites the array entries with fresh cells, which nothing can tell apart because cells are reached only through the array.
- AStarSearch.AStar.ShortestPath: optimality of the returned route is not proved; the contract states that it is a walk to the finish, plus unreachability on failure outside kill mode.
- AStarSearch.AStar.FindShortestPath: a failed search after a kill is not proved unreachable, because the kill changes the walkable cells during the search.
- BacktrackingSearch.Backtracking.TracePath: the trail runs backwards along neighbour links. Adjacency is not proved symmetric, so the buffer is not proved to be a forward walk from the start.
- BacktrackingSearch.Backtracking.FindShortestPath: the buffers are proved to hold traces of the found depths, not to be the shortest routes. Completeness of the depth-first search is not proved.
- BacktrackingSearch.Backtracking.FindShortestPath: it requires the Chest and Tortuga on different cells, which `ChestApart` proves of every placement `isCorrect` accepts.
- BacktrackingSearch.Backtracking.CanWalkThrough: it reads `cells[x][y]` for the neighbour, which is the neighbour itself because each cell is identified by its position.
- 32-bit wrap-around is not modelled. Danger levels and depths stay far from the limits. The one wrap, `Integer.MAX_VALUE + 1` in `tracePath` (Main.java:1267), only decides a comparison that fails with the wrapped value and with the unbounded one alike.
