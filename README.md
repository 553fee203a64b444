# Tactical scoring and selection for a grid RTS agent

This project models `TacticalPath`, the tactical decision layer of a grid-based
real-time strategy agent, and proves properties of the model. The layer has
three parts:

- `Heuristic` is the Manhattan distance between two grid coordinates.
- `FindBestTile` picks the spawn tile. It scores every empty tile as
  `100 - (distance to the nearest money tile) + 0.5 * (distance to the nearest hostile agent)`
  and returns the best tile, or nothing when there is no empty tile.
- `FindBestPath` picks an objective and the route to it. It scores every money
  tile other than the start that the pathfinder can reach. The score is the
  tile's base value (100, 300 when hidden, 600 when a hostile agent owns it)
  minus the path distance, minus a contention penalty of `c * c * 10` when `c`
  other agents target an unowned or friendly-owned tile. The penalty is Int32
  arithmetic: past 14654 claims the product wraps, and at 14655 claims it is
  -2147277046. It returns the
  pathfinder's route to the best tile, or nothing when no tile was scored.

Both evaluators build an insertion-ordered score table and fold it with
`Aggregate((x, y) => x.Value > y.Value ? x : y)`. The accumulator survives only
when it is strictly greater, so on a tie the later entry wins: the result is
the **last** maximal entry in table order. Selection therefore depends on
insertion order.

Layout, one module per component:

- `grid.dfy` (`GridModel`): coordinates, tiles, owners, agents, the grid
  snapshot, pathfinder answers, and the hostile-agent filter.
- `distance.dfy` (`Distance`): the heuristic and the running minimum both
  evaluators keep. A running minimum starts at float.MaxValue (`MaxValue`) or,
  for `currentMinDistance`, at 18.
- `selection.dfy` (`Selection`): the score table and the strict-`>` fold.
- `spawn.dfy` (`Spawn`): the spawn value, the spawn table and the chosen tile.
- `objective.dfy` (`Objective`): tile value, contention penalty, tactical
  value, the objective table and the returned route.
- `tactical_path.dfy` (`Tactical`): the class `TacticalPath`. Its fields are
  the scratch fields the source updates: `distance`, `agentPenalty`,
  `currentMinDistance` and `_usefulTiles` (as `usefulTiles`). Its methods run
  the source's loops. Each method's `ensures` ties its result and the fields'
  new values to the functions above.

The float.MaxValue sentinel is handled the way single-precision arithmetic
handles it. When a minimum is still float.MaxValue, the grid-sized term next to
it is absorbed (`100 - MaxValue` rounds to `-MaxValue`; `x + MaxValue * 0.5`
rounds to `MaxValue * 0.5`). So with no hostile agent, or no money tile, every
empty tile gets the same spawn value. The fold then returns the last empty
tile, however far it is from money (`Spawn.SpawnAtLastTileWithoutTargets`).

## Model

| member | source | states |
|---|---|---|
| `Distance.Heuristic` | Assets/Scripts/TacticalPath.cs:39-42 | The distance between two coordinates is zero exactly when they are equal. |
| `Distance.HeuristicIsAMetric` | Assets/Scripts/TacticalPath.cs:39-42 | The distance is symmetric and obeys the triangle inequality. |
| `Distance.RunningMin` | Assets/Scripts/TacticalPath.cs:66-90 | The running minimum never rises above a finite start value, and it is float.MaxValue exactly when it started there and the list is empty. `Distance.RunningMinIsMinimum` states the rest. |
| `Distance.RunningMinIsMinimum` | Assets/Scripts/TacticalPath.cs:64-90 | The loop's running minimum is at most its start value and every distance in the list, and is one of them. It stays float.MaxValue exactly when it started there and the list is empty. |
| `GridModel.Hostiles` | Assets/Scripts/TacticalPath.cs:52-58 | The hostile list is no longer than the agent list. `GridModel.HostilesAreTheUnfriendly` states which tiles it holds. |
| `GridModel.HostilesAreTheUnfriendly` | Assets/Scripts/TacticalPath.cs:52-58 | A tile is in the hostile list exactly when some agent that is not friendly stands on it. |
| `Tactical.TacticalPath.CollectHostiles` | Assets/Scripts/TacticalPath.cs:122-128 | The loop over the agents collects exactly the hostile list, in agent order. |
| `Selection.Aggregate` | Assets/Scripts/TacticalPath.cs:101 | The fold returns an entry of the table. |
| `Selection.AggregateIsLastMaximum` | Assets/Scripts/TacticalPath.cs:213 | The fold returns an entry whose value is at least every value in the table, and every later entry is strictly smaller: the last maximal entry wins. |
| `Selection.AggregateOfTiesIsLast` | Assets/Scripts/TacticalPath.cs:101 | When all entries tie, the fold returns the last one. |
| `Spawn.SpawnValue` | Assets/Scripts/TacticalPath.cs:92 | With no money minimum (float.MaxValue) the value is at most -float.MaxValue / 2, and with a grid-sized one it is above that. With a money minimum but no hostile minimum it is float.MaxValue / 2. With a grid-sized hostile minimum it is below float.MaxValue / 2. |
| `Spawn.SpawnScore` | Assets/Scripts/TacticalPath.cs:64-92 | With no money tile a tile's spawn value is at most -float.MaxValue / 2. With money tiles and no hostile agent it is float.MaxValue / 2. `Spawn.SpawnScoreFromNearest` gives it with both present. |
| `Spawn.SpawnTable` | Assets/Scripts/TacticalPath.cs:62-94 | The spawn table has one entry per empty tile, in list order, each holding that tile's spawn value. |
| `Spawn.SpawnChoice` | Assets/Scripts/TacticalPath.cs:96-102 | No tile is chosen exactly when the empty-tile list is empty; otherwise the chosen tile is one of the empty tiles. |
| `Spawn.SpawnChoiceIsLastBest` | Assets/Scripts/TacticalPath.cs:96-102 | The chosen tile's spawn value is at least every empty tile's, and every empty tile after it scores strictly less. |
| `Spawn.SpawnScoreFromNearest` | Assets/Scripts/TacticalPath.cs:64-92 | With money tiles and hostiles present, the spawn value is 100 minus the least money distance plus half the least hostile distance. |
| `Spawn.SpawnScoreWithoutTargets` | Assets/Scripts/TacticalPath.cs:66-92 | When a list is empty its minimum stays float.MaxValue, and the spawn value is a constant whatever the tile. |
| `Spawn.SpawnAtLastTileWithoutTargets` | Assets/Scripts/TacticalPath.cs:62-102 | With no hostile agent or no money tile, the last empty tile is chosen. |
| `Spawn.SpawnValueMonotone` | Assets/Scripts/TacticalPath.cs:92 | The spawn value never rises as the nearest money tile gets farther away. It never falls as the nearest hostile gets farther away. |
| `Tactical.TacticalPath.ScoreSpawnTile` | Assets/Scripts/TacticalPath.cs:64-92 | The two inner loops yield the tile's spawn value and leave the last distance computed in `distance`. |
| `Tactical.TacticalPath.FindBestTile` | Assets/Scripts/TacticalPath.cs:44-103 | Returns the spawn choice (nothing exactly when there is no empty tile) and leaves in `distance` the last distance computed. |
| `Objective.TileValue` | Assets/Scripts/TacticalPath.cs:144-158 | The base value is 600 exactly when a hostile agent owns the tile. Otherwise it is 300 exactly when the tile is hidden, and 100 exactly when it is visible. |
| `Objective.WrapInt32` | Assets/Scripts/TacticalPath.cs:188 | The wrapped result lies in the Int32 range and is congruent to the exact result modulo 2^32. It equals the exact result when that is already in range. |
| `Objective.ClaimPenalty` | Assets/Scripts/TacticalPath.cs:186-189 | The Int32 penalty `value * value * 10`, with both products wrapping, lies in the Int32 range and is congruent to the exact product modulo 2^32, so it is the exact product reduced once. For claim counts of magnitude at most 14654 it is exactly ten times the square and not negative. |
| `Objective.ClaimPenaltyWrapsPastBound` | Assets/Scripts/TacticalPath.cs:188 | At 14655 claims the product wraps to -2147277046, a negative penalty, while 14654 claims still give a positive one. |
| `Objective.Penalty` | Assets/Scripts/TacticalPath.cs:183-199 | The penalty is 0 for a tile that is hostile-owned, owned by a non-agent, or absent from the claim table. Otherwise it is ten times the square of the claim count reduced to Int32, which is the exact value, not negative, up to 14654 claims. |
| `Objective.PenaltyGrowsWithClaims` | Assets/Scripts/TacticalPath.cs:186-189 | Up to 14654 claims, more claims never lower the penalty. The increase is at least ten times the square of the difference. |
| `Objective.HostileTileNeverPenalised` | Assets/Scripts/TacticalPath.cs:196-202 | A hostile-owned tile is worth 600 minus its path distance, whatever the claim table holds. |
| `Objective.TacticalValue` | Assets/Scripts/TacticalPath.cs:183-202 | A tile outside contention, or absent from the claim table, is worth its base value minus its path distance. Up to 14654 claims, contention only lowers that. |
| `Objective.Objectives` | Assets/Scripts/TacticalPath.cs:131-205 | Every entry of the objective table is a tile other than the start with a non-empty path. The table is no longer than the money list. |
| `Objective.ObjectivesAreTheEligible` | Assets/Scripts/TacticalPath.cs:131-205 | The table holds exactly the money tiles that are not the start and are reachable, each with value minus path distance minus penalty. |
| `Objective.ObjectivesAreScored` | Assets/Scripts/TacticalPath.cs:131-205 | The table is the money list in its own order, filtered to the tiles that are not the start and are reachable, each scored by its tactical value. |
| `Objective.BestPath` | Assets/Scripts/TacticalPath.cs:207-215 | No route exactly when the objective table is empty. A returned route is never empty. |
| `Objective.NoPathIffNoCandidate` | Assets/Scripts/TacticalPath.cs:207-210 | No route is returned exactly when every money tile is the start or unreachable. |
| `Objective.BestPathIsLastBest` | Assets/Scripts/TacticalPath.cs:212-215 | A returned route is the path to a money tile other than the start with a non-empty path. Its value is maximal, and every later candidate scores strictly less. |
| `Objective.WinnerIsLastBestMoneyTile` | Assets/Scripts/TacticalPath.cs:131-213 | The fold's winner is the money tile at an eligible index `i`. No eligible money tile scores more, and every eligible money tile listed after it scores strictly less. The returned route is the pathfinder's path to that tile. |
| `Objective.ScenarioHiddenOrHostileTileWins` | Assets/Scripts/TacticalPath.cs:144-215 | From (2,2), a hidden money tile at (5,5) (294) beats a visible one at (0,0) (96). Owned by a hostile agent (594), it still wins whatever claim count (5,5) has, provided the count for (0,0) is at most 14654 in magnitude. |
| `Tactical.NextObjectiveIsNew` | Assets/Scripts/TacticalPath.cs:204 | When the table's keys are distinct, each `Add` inserts a tile that is not yet a key. |
| `Tactical.TacticalPath.ScoreObjective` | Assets/Scripts/TacticalPath.cs:133-204 | One pass over a money tile resets `currentMinDistance` to 18. It skips the start and unreachable tiles. Otherwise it appends the tile's tactical value and sets `agentPenalty`, `currentMinDistance` and `distance` as the source does. |
| `Tactical.TacticalPath.FindBestPath` | Assets/Scripts/TacticalPath.cs:105-216 | Leaves the objective table in `usefulTiles` and returns the route to its last best entry, or nothing when it is empty. Also states the final `agentPenalty`, `currentMinDistance` and `distance`. |
| `Tactical.TacticalPath.constructor` | Assets/Scripts/TacticalPath.cs:30-37 | A new object starts with `currentMinDistance` 18, `distance` and `agentPenalty` 0, and an empty table. |

## Left out

- `SetAgent` and the `_agent` field: a setter with no effect on either evaluator.
- The pathfinder's internals. `FindPath` and `GetDistance` are one deterministic function from (start, goal) to a `Route`. So the final `FindPath` call returns the same path that was scored for the winner.
- The grid's bookkeeping. `GetEmptyTiles`, `GetMoneyTiles(false)` and `GetTileAtPosition` are the fields of a `Grid` snapshot: two lists and a lookup function.
- Engine types. `GameObject`, `GetComponent<EvanTestAgent>()`, `Vector2`, `Vector2Int` and `Mathf` are replaced by `Owner` (none, an agent with its side, or a non-agent object) and integer `Pos` values.
- Unused fields: the placeholder field initialisers, `_path`, `_ptile`, `distanceToEnemy` and `closetTile` are never read by the evaluators.
- Exceptions: `Dictionary.Add` throws on a duplicate key. `FindBestTile` and `FindBestPath` instead require the keys they add to be distinct. A grid lists each tile once.
- Dictionary enumeration order is taken to be insertion order. That holds for a `Dictionary` that is only ever added to, as here.
- `_usefulTiles` starts as `null` in the source and as an empty table here. `FindBestPath` assigns it before any read.
- Floating point beyond the sentinel:
  - `SpawnValue` treats sums of grid distances as exact, which holds for distances below 2^22.
  - It treats a grid-sized term next to float.MaxValue as absorbed, which holds for distances below 2^100.
  - Path distances and scores are exact reals.
- Side effects of the pathfinder beyond its answer (the source's `_aStar` keeps its own state) are not modelled.
- `Objective.PenaltyGrowsWithClaims`: holds only up to 14654 claims. Past that the Int32 product wraps (`Objective.ClaimPenaltyWrapsPastBound`), so more claims can lower the penalty.
- `Objective.ScenarioHiddenOrHostileTileWins`: requires the claim count for (0,0), and only that one, to be at most 14654 in magnitude. Some larger counts on (0,0), 14655 for one, wrap to a negative penalty that lifts its score above 594.
