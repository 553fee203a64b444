/** The collaborators the tactical layer reads but never changes: grid
    coordinates, tiles with their owners, agents, and what the pathfinder
    reports for one request. */
module GridModel {

  datatype Option<T> = None | Some(value: T)

  /** A grid coordinate; positions on the grid are always integral. */
  datatype Pos = Pos(x: int, y: int)

  /** The owner of a tile: nobody, a game object that carries an agent
      (friendly or hostile), or a game object without an agent component. */
  datatype Owner = Unowned | AgentOwner(friendly: bool) | OtherOwner

  /** A grid cell as the tactical layer sees it. Two tiles of one grid differ
      in position, so value equality stands for the source's reference identity. */
  datatype Tile = Tile(pos: Pos, hidden: bool, owner: Owner)

  /** An agent: its side and the tile it currently stands on. */
  datatype Agent = Agent(friendly: bool, tile: Tile)

  /** One answer of the pathfinder: the tiles from start to goal (empty when
      the goal is unreachable) and the total distance of that path. */
  datatype Route = Route(path: seq<Tile>, distance: real)

  /** A snapshot of the grid: the unoccupied tiles, the money-tile positions
      the grid reports, and the lookup from a position to the tile there. */
  datatype Grid = Grid(emptyTiles: seq<Tile>, moneyTiles: seq<Pos>, tileAt: Pos -> Tile)

  predicate Distinct<T(==)>(s: seq<T>)
  {
    forall i, j :: 0 <= i < j < |s| ==> s[i] != s[j]
  }

  function Last<T>(s: seq<T>): T
    requires s != []
  {
    s[|s| - 1]
  }

  /** The tiles of the hostile agents, in the order the agents are listed. */
  function Hostiles(agents: seq<Agent>): (tiles: seq<Tile>)
    ensures |tiles| <= |agents|
  {
    if agents == [] then []
    else
      var a := Last(agents);
      var earlier := Hostiles(agents[..|agents| - 1]);
      if !a.friendly then earlier + [a.tile] else earlier
  }

  /** The positions of a list of tiles. */
  function Positions(tiles: seq<Tile>): (ps: seq<Pos>)
  {
    seq(|tiles|, i requires 0 <= i < |tiles| => tiles[i].pos)
  }

  /** Exactly the tiles of the unfriendly agents feed the hostile list. */
  lemma {:induction false} HostilesAreTheUnfriendly(agents: seq<Agent>)
    ensures forall t :: t in Hostiles(agents) <==> exists a :: a in agents && !a.friendly && a.tile == t
  {
    if agents != [] {
      var earlier := agents[..|agents| - 1];
      HostilesAreTheUnfriendly(earlier);
      assert agents == earlier + [Last(agents)];
    }
  }
}
