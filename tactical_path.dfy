/** The tactical layer itself: an object whose two evaluators run their loops
    over the grid snapshot and leave their scratch values in its fields. */
module Tactical {
  import opened GridModel
  import opened Distance
  import opened Selection
  import opened Spawn
  import opened Objective

  /** The cap `currentMinDistance` is reset to for every money tile. */
  const EnemyDistanceCap: nat := 18

  /** The last distance the spawn evaluator writes: from the last empty tile to
      the last hostile agent, or else to the last money tile, or else nothing
      is written. */
  function SpawnScratch(empty: seq<Tile>, money: seq<Pos>, hostiles: seq<Pos>, prior: nat): nat
  {
    if empty == [] then prior
    else if hostiles != [] then Heuristic(Last(empty).pos, Last(hostiles))
    else if money != [] then Heuristic(Last(empty).pos, Last(money))
    else prior
  }

  /** The enemy distance left for one money tile: the cap when the tile is
      skipped, otherwise the least of the cap and its hostile distances. */
  function EnemyDistance(start: Tile, p: Pos, tileAt: Pos -> Tile, hostiles: seq<Pos>,
                         aStar: (Tile, Tile) -> Route): MinDist
  {
    if Eligible(start, tileAt(p), aStar) then RunningMin(p, hostiles, Finite(EnemyDistanceCap))
    else Finite(EnemyDistanceCap)
  }

  /** The last distance the path evaluator writes: from the last scored money
      tile to the last hostile agent, if both exist. */
  function PathScratch(start: Tile, money: seq<Pos>, tileAt: Pos -> Tile, hostiles: seq<Pos>,
                       aStar: (Tile, Tile) -> Route, prior: nat): nat
  {
    if money == [] || hostiles == [] then prior
    else if Eligible(start, tileAt(Last(money)), aStar) then Heuristic(Last(money), Last(hostiles))
    else PathScratch(start, money[..|money| - 1], tileAt, hostiles, aStar, prior)
  }

  /** The table of a shorter money list is a prefix of the full table. */
  lemma {:induction false} ObjectivesPrefix(start: Tile, money: seq<Pos>, n: nat, tileAt: Pos -> Tile,
                                            claims: map<Tile, int>, aStar: (Tile, Tile) -> Route)
    requires n <= |money|
    ensures Objectives(start, money[..n], tileAt, claims, aStar) <= Objectives(start, money, tileAt, claims, aStar)
    decreases |money|
  {
    if n < |money| {
      var earlier := money[..|money| - 1];
      assert earlier[..n] == money[..n];
      ObjectivesPrefix(start, earlier, n, tileAt, claims, aStar);
    } else {
      assert money[..n] == money;
    }
  }

  /** One empty tile more extends the spawn table by that tile's entry. */
  lemma SpawnTableStep(empty: seq<Tile>, i: nat, money: seq<Pos>, hostiles: seq<Pos>)
    requires i < |empty|
    ensures SpawnTable(empty[..i + 1], money, hostiles)
      == SpawnTable(empty[..i], money, hostiles) + [Entry(empty[i], SpawnScore(empty[i], money, hostiles))]
    ensures Keys(SpawnTable(empty[..i], money, hostiles)) == empty[..i]
  {
    assert empty[..i + 1][..i] == empty[..i];
  }

  /** One money tile more extends the table by its entry exactly when it is
      eligible. */
  lemma ObjectivesStep(start: Tile, money: seq<Pos>, i: nat, tileAt: Pos -> Tile,
                       claims: map<Tile, int>, aStar: (Tile, Tile) -> Route)
    requires i < |money|
    ensures var t := tileAt(money[i]);
      var before := Objectives(start, money[..i], tileAt, claims, aStar);
      Objectives(start, money[..i + 1], tileAt, claims, aStar)
        == if Eligible(start, t, aStar) then before + [Entry(t, TacticalValue(t, aStar(start, t), claims))] else before
  {
    assert money[..i + 1][..i] == money[..i];
  }

  /** When the full table has distinct keys, an eligible money tile is not yet
      a key of the table built from the tiles before it. */
  lemma NextObjectiveIsNew(start: Tile, money: seq<Pos>, i: nat, tileAt: Pos -> Tile,
                           claims: map<Tile, int>, aStar: (Tile, Tile) -> Route)
    requires i < |money|
    requires Distinct(Keys(Objectives(start, money, tileAt, claims, aStar)))
    requires Eligible(start, tileAt(money[i]), aStar)
    ensures tileAt(money[i]) !in Keys(Objectives(start, money[..i], tileAt, claims, aStar))
  {
    var t := tileAt(money[i]);
    var before := Objectives(start, money[..i], tileAt, claims, aStar);
    var table := Objectives(start, money, tileAt, claims, aStar);
    ObjectivesStep(start, money, i, tileAt, claims, aStar);
    ObjectivesPrefix(start, money, i + 1, tileAt, claims, aStar);
    assert Keys(table)[|before|] == t;
    forall j | 0 <= j < |before|
      ensures Keys(before)[j] != t
    {
      assert Keys(table)[j] == Keys(before)[j];
    }
  }

  /** One money tile more moves the path evaluator's last distance exactly
      when that tile is scored and there is a hostile agent. */
  lemma PathScratchStep(start: Tile, money: seq<Pos>, i: nat, tileAt: Pos -> Tile, hostiles: seq<Pos>,
                        aStar: (Tile, Tile) -> Route, prior: nat)
    requires i < |money|
    ensures PathScratch(start, money[..i + 1], tileAt, hostiles, aStar, prior)
      == if Eligible(start, tileAt(money[i]), aStar) && hostiles != [] then Heuristic(money[i], Last(hostiles))
         else PathScratch(start, money[..i], tileAt, hostiles, aStar, prior)
  {
    assert money[..i + 1][..i] == money[..i];
  }

  class TacticalPath {
    /** The last heuristic distance computed. */
    var distance: nat
    /** The contention penalty of the last scored objective. */
    var agentPenalty: int
    /** The capped enemy distance of the last money tile visited. */
    var currentMinDistance: MinDist
    /** The score table of the last objective evaluation, in insertion order. */
    var usefulTiles: seq<Entry<Tile>>

    constructor ()
      ensures distance == 0 && agentPenalty == 0
      ensures currentMinDistance == Finite(EnemyDistanceCap) && usefulTiles == []
    {
      distance := 0;
      agentPenalty := 0;
      currentMinDistance := Finite(EnemyDistanceCap);
      usefulTiles := [];
    }

    /** The tiles of the agents that are not friendly, in agent order. */
    static method CollectHostiles(agents: seq<Agent>) returns (playerLocations: seq<Tile>)
      ensures playerLocations == Hostiles(agents)
    {
      playerLocations := [];
      for i := 0 to |agents|
        invariant playerLocations == Hostiles(agents[..i])
      {
        assert agents[..i + 1][..i] == agents[..i];
        if !agents[i].friendly {
          playerLocations := playerLocations + [agents[i].tile];
        }
      }
      assert agents[..|agents|] == agents;
    }

    /** One pass of the spawn evaluator's loop over the empty tiles: the spawn
        value of `tile`, from its nearest money tile and nearest hostile agent. */
    method ScoreSpawnTile(tile: Tile, moneyTileLocations: seq<Pos>, playerLocations: seq<Tile>) returns (spawnValue: real)
      modifies this`distance
      ensures spawnValue == SpawnScore(tile, moneyTileLocations, Positions(playerLocations))
      ensures distance == if playerLocations != [] then Heuristic(tile.pos, Last(playerLocations).pos)
        else if moneyTileLocations != [] then Heuristic(tile.pos, Last(moneyTileLocations))
        else old(distance)
    {
      ghost var hostiles := Positions(playerLocations);
      var minDistanceToMoney := MaxValue;
      for j := 0 to |moneyTileLocations|
        invariant minDistanceToMoney == RunningMin(tile.pos, moneyTileLocations[..j], MaxValue)
        invariant distance == if j == 0 then old(distance) else Heuristic(tile.pos, moneyTileLocations[j - 1])
      {
        assert moneyTileLocations[..j + 1][..j] == moneyTileLocations[..j];
        distance := Heuristic(tile.pos, moneyTileLocations[j]);
        if Below(distance, minDistanceToMoney) {
          minDistanceToMoney := Finite(distance);
        }
      }
      assert moneyTileLocations[..|moneyTileLocations|] == moneyTileLocations;
      ghost var afterMoney := distance;

      var minDistanceToPlayer := MaxValue;
      for j := 0 to |playerLocations|
        invariant minDistanceToPlayer == RunningMin(tile.pos, hostiles[..j], MaxValue)
        invariant distance == if j == 0 then afterMoney else Heuristic(tile.pos, hostiles[j - 1])
      {
        assert hostiles[..j + 1][..j] == hostiles[..j];
        distance := Heuristic(tile.pos, playerLocations[j].pos);
        if Below(distance, minDistanceToPlayer) {
          minDistanceToPlayer := Finite(distance);
        }
      }
      assert hostiles[..|playerLocations|] == hostiles;
      spawnValue := SpawnValue(minDistanceToMoney, minDistanceToPlayer);
    }

    /** Scores every empty tile and returns the last one of highest spawn
        value, or None when there is no empty tile. */
    method FindBestTile(grid: Grid, agents: seq<Agent>) returns (best: Option<Tile>)
      requires Distinct(grid.emptyTiles)
      modifies this`distance
      ensures best == SpawnChoice(grid.emptyTiles, grid.moneyTiles, Positions(Hostiles(agents)))
      ensures best.None? <==> grid.emptyTiles == []
      ensures distance == SpawnScratch(grid.emptyTiles, grid.moneyTiles, Positions(Hostiles(agents)), old(distance))
    {
      var spawnValues: seq<Entry<Tile>> := [];
      var emptyTileLocations := grid.emptyTiles;
      var playerLocations := CollectHostiles(agents);
      var moneyTileLocations := grid.moneyTiles;
      ghost var hostiles := Positions(playerLocations);

      for i := 0 to |emptyTileLocations|
        invariant spawnValues == SpawnTable(emptyTileLocations[..i], moneyTileLocations, hostiles)
        invariant distance == SpawnScratch(emptyTileLocations[..i], moneyTileLocations, hostiles, old(distance))
      {
        var tile := emptyTileLocations[i];
        var spawnValue := ScoreSpawnTile(tile, moneyTileLocations, playerLocations);

        // Dictionary.Add: the tile is not yet a key of the table
        SpawnTableStep(emptyTileLocations, i, moneyTileLocations, hostiles);
        assert tile !in Keys(spawnValues);
        spawnValues := spawnValues + [Entry(tile, spawnValue)];
      }
      assert emptyTileLocations[..|emptyTileLocations|] == emptyTileLocations;

      if |spawnValues| == 0 {
        return None;
      }
      var bestSpawn := Aggregate(spawnValues);
      return Some(bestSpawn.key);
    }

    /** One pass of the path evaluator's loop over the money tiles, for the
        money tile at `tileLocations`: skips the start tile and unreachable
        tiles, and otherwise adds the tile's tactical value to the table. */
    method ScoreObjective(start: Tile, tileLocations: Pos, tileAt: Pos -> Tile, playerLocations: seq<Tile>,
                          targetTiles: map<Tile, int>, aStar: (Tile, Tile) -> Route)
      requires Eligible(start, tileAt(tileLocations), aStar) ==> tileAt(tileLocations) !in Keys(usefulTiles)
      modifies this
      ensures currentMinDistance == EnemyDistance(start, tileLocations, tileAt, Positions(playerLocations), aStar)
      ensures var t := tileAt(tileLocations);
        if Eligible(start, t, aStar) then
          && usefulTiles == old(usefulTiles) + [Entry(t, TacticalValue(t, aStar(start, t), targetTiles))]
          && agentPenalty == Penalty(t, targetTiles)
          && distance == if playerLocations == [] then old(distance) else Heuristic(tileLocations, Last(playerLocations).pos)
        else
          usefulTiles == old(usefulTiles) && agentPenalty == old(agentPenalty) && distance == old(distance)
    {
      currentMinDistance := Finite(EnemyDistanceCap);

      var newTile := tileAt(tileLocations);
      var tileOwner := newTile.owner;
      if newTile == start {
        return;
      }

      var tileValue := 100;
      if newTile.hidden {
        tileValue := 300;
      }
      if tileOwner.AgentOwner? && !tileOwner.friendly {
        tileValue := 600;
      }
      assert tileValue == TileValue(newTile);

      var route := aStar(start, newTile);
      var pathToMoneyTile := route.path;
      if |pathToMoneyTile| == 0 {
        return;
      }
      var distanceToMoneyTile := route.distance;

      ghost var hostiles := Positions(playerLocations);
      ghost var before := distance;
      for k := 0 to |playerLocations|
        modifies this`distance, this`currentMinDistance
        invariant currentMinDistance == RunningMin(tileLocations, hostiles[..k], Finite(EnemyDistanceCap))
        invariant distance == if k == 0 then before else Heuristic(tileLocations, hostiles[k - 1])
      {
        assert hostiles[..k + 1][..k] == hostiles[..k];
        distance := Heuristic(tileLocations, playerLocations[k].pos);
        if Below(distance, currentMinDistance) {
          currentMinDistance := Finite(distance);
        }
      }
      assert hostiles[..|playerLocations|] == hostiles;

      if tileOwner.Unowned? || (tileOwner.AgentOwner? && tileOwner.friendly) {
        if newTile in targetTiles {
          var value := targetTiles[newTile];
          agentPenalty := WrapInt32(WrapInt32(value * value) * 10);
        } else {
          // TryGetValue leaves the count at its default, 0
          agentPenalty := 0 * 5;
        }
      } else {
        agentPenalty := 0;
      }
      assert agentPenalty == Penalty(newTile, targetTiles);

      var tacticalValue := tileValue as real - distanceToMoneyTile - agentPenalty as real;
      // Dictionary.Add needs a key that is not in the table yet: see the requires
      usefulTiles := usefulTiles + [Entry(newTile, tacticalValue)];
    }

    /** Scores every reachable money tile other than the start and returns
        the route to the last one of highest tactical value, or None when no
        money tile was scored. */
    method FindBestPath(start: Tile, grid: Grid, agents: seq<Agent>, targetTiles: map<Tile, int>,
                        aStar: (Tile, Tile) -> Route) returns (path: Option<seq<Tile>>)
      requires Distinct(Keys(Objectives(start, grid.moneyTiles, grid.tileAt, targetTiles, aStar)))
      modifies this
      ensures usefulTiles == Objectives(start, grid.moneyTiles, grid.tileAt, targetTiles, aStar)
      ensures path == BestPath(start, grid.moneyTiles, grid.tileAt, targetTiles, aStar)
      ensures path.None? <==> usefulTiles == []
      ensures agentPenalty == if usefulTiles == [] then 0 else Penalty(Last(usefulTiles).key, targetTiles)
      ensures currentMinDistance == if grid.moneyTiles == [] then old(currentMinDistance)
        else EnemyDistance(start, Last(grid.moneyTiles), grid.tileAt, Positions(Hostiles(agents)), aStar)
      ensures distance == PathScratch(start, grid.moneyTiles, grid.tileAt, Positions(Hostiles(agents)), aStar, old(distance))
    {
      agentPenalty := 0;
      usefulTiles := [];

      var moneyTileLocations := grid.moneyTiles;
      var playerLocations := CollectHostiles(agents);
      ghost var hostiles := Positions(playerLocations);

      for i := 0 to |moneyTileLocations|
        invariant usefulTiles == Objectives(start, moneyTileLocations[..i], grid.tileAt, targetTiles, aStar)
        invariant agentPenalty == if usefulTiles == [] then 0 else Penalty(Last(usefulTiles).key, targetTiles)
        invariant currentMinDistance == if i == 0 then old(currentMinDistance)
          else EnemyDistance(start, moneyTileLocations[i - 1], grid.tileAt, hostiles, aStar)
        invariant distance == PathScratch(start, moneyTileLocations[..i], grid.tileAt, hostiles, aStar, old(distance))
      {
        ObjectivesStep(start, moneyTileLocations, i, grid.tileAt, targetTiles, aStar);
        if Eligible(start, grid.tileAt(moneyTileLocations[i]), aStar) {
          NextObjectiveIsNew(start, moneyTileLocations, i, grid.tileAt, targetTiles, aStar);
        }
        PathScratchStep(start, moneyTileLocations, i, grid.tileAt, hostiles, aStar, old(distance));
        ScoreObjective(start, moneyTileLocations[i], grid.tileAt, playerLocations, targetTiles, aStar);
      }
      assert moneyTileLocations[..|moneyTileLocations|] == moneyTileLocations;

      if |usefulTiles| == 0 {
        return None;
      }
      var associatedKey := Aggregate(usefulTiles);
      return Some(aStar(start, associatedKey.key).path);
    }
  }
}
