/** The spawn-site evaluator's scoring: every empty tile is scored from its
    nearest money tile and its nearest hostile agent, and the table of scores
    is folded by the shared selection rule. */
module Spawn {
  import opened GridModel
  import opened Distance
  import opened Selection

  /** float.MaxValue, the largest finite single-precision value. */
  const FloatMax: real := 340282346638528859811704183484516925440.0

  /** Distances up to this bound vanish when single-precision arithmetic adds
      them to a value near float.MaxValue. */
  const AbsorbedBelow: nat := 0x10_0000_0000_0000_0000_0000_0000

  predicate Absorbable(m: MinDist)
  {
    m.MaxValue? || m.d < AbsorbedBelow
  }

  /** `100 - minDistanceToMoney + minDistanceToPlayer * 0.5f` as single-precision
      arithmetic computes it. With two grid distances the value is exact. A
      float.MaxValue operand absorbs every grid-sized term next to it:
      100 - MaxValue rounds to -MaxValue, and adding a grid-sized term to
      MaxValue * 0.5 leaves MaxValue * 0.5. */
  function SpawnValue(toMoney: MinDist, toHostile: MinDist): (v: real)
    ensures toMoney.MaxValue? ==> v <= -FloatMax * 0.5
    ensures toMoney.Finite? && toMoney.d < AbsorbedBelow ==> v > -FloatMax * 0.5
    ensures toMoney.Finite? && toHostile.MaxValue? ==> v == FloatMax * 0.5
    ensures toHostile.Finite? && toHostile.d < AbsorbedBelow ==> v < FloatMax * 0.5
  {
    match (toMoney, toHostile)
    case (Finite(m), Finite(h)) => 100.0 - m as real + h as real * 0.5
    case (Finite(_), MaxValue) => FloatMax * 0.5
    case (MaxValue, Finite(_)) => -FloatMax
    case (MaxValue, MaxValue) => -FloatMax + FloatMax * 0.5
  }

  /** The spawn value of one empty tile. Without money tiles it is at most
      -float.MaxValue / 2; with money tiles but no hostile agent it is
      float.MaxValue / 2. */
  function SpawnScore(t: Tile, money: seq<Pos>, hostiles: seq<Pos>): (v: real)
    ensures money == [] ==> v <= -FloatMax * 0.5
    ensures money != [] && hostiles == [] ==> v == FloatMax * 0.5
  {
    SpawnValue(RunningMin(t.pos, money, MaxValue), RunningMin(t.pos, hostiles, MaxValue))
  }

  /** The spawn table the evaluator builds: one entry per empty tile, in the
      order of the empty-tile list. */
  function SpawnTable(empty: seq<Tile>, money: seq<Pos>, hostiles: seq<Pos>): (table: seq<Entry<Tile>>)
    ensures |table| == |empty|
    ensures forall i :: 0 <= i < |empty| ==> table[i] == Entry(empty[i], SpawnScore(empty[i], money, hostiles))
  {
    if empty == [] then []
    else SpawnTable(empty[..|empty| - 1], money, hostiles) + [Entry(Last(empty), SpawnScore(Last(empty), money, hostiles))]
  }

  /** The tile the evaluator returns, or None when there is no empty tile. */
  function SpawnChoice(empty: seq<Tile>, money: seq<Pos>, hostiles: seq<Pos>): (r: Option<Tile>)
    ensures r.None? <==> empty == []
    ensures r.Some? ==> r.value in empty
  {
    if empty == [] then None
    else
      var table := SpawnTable(empty, money, hostiles);
      var best := Aggregate(table);
      assert exists i :: 0 <= i < |table| && table[i] == best;
      Some(best.key)
  }

  /** The chosen tile scores at least as much as every empty tile, and every
      empty tile after it scores strictly less: the last best tile wins. */
  lemma SpawnChoiceIsLastBest(empty: seq<Tile>, money: seq<Pos>, hostiles: seq<Pos>) returns (k: nat)
    requires empty != []
    ensures k < |empty| && SpawnChoice(empty, money, hostiles) == Some(empty[k])
    ensures forall j :: 0 <= j < |empty| ==>
      SpawnScore(empty[j], money, hostiles) <= SpawnScore(empty[k], money, hostiles)
    ensures forall j :: k < j < |empty| ==>
      SpawnScore(empty[j], money, hostiles) < SpawnScore(empty[k], money, hostiles)
  {
    var table := SpawnTable(empty, money, hostiles);
    k := AggregateIsLastMaximum(table);
    forall j | 0 <= j < |empty|
      ensures SpawnScore(empty[j], money, hostiles) == table[j].value
    {
    }
  }

  /** With money tiles and hostile agents present, a tile's spawn value is
      100 minus its distance to the nearest money tile plus half its distance
      to the nearest hostile agent. */
  lemma SpawnScoreFromNearest(t: Tile, money: seq<Pos>, hostiles: seq<Pos>) returns (dm: nat, dh: nat)
    requires money != [] && hostiles != []
    ensures SpawnScore(t, money, hostiles) == 100.0 - dm as real + dh as real * 0.5
    ensures (exists i :: 0 <= i < |money| && dm == Heuristic(t.pos, money[i]))
      && forall i :: 0 <= i < |money| ==> dm <= Heuristic(t.pos, money[i])
    ensures (exists i :: 0 <= i < |hostiles| && dh == Heuristic(t.pos, hostiles[i]))
      && forall i :: 0 <= i < |hostiles| ==> dh <= Heuristic(t.pos, hostiles[i])
  {
    RunningMinIsMinimum(t.pos, money, MaxValue);
    RunningMinIsMinimum(t.pos, hostiles, MaxValue);
    dm := RunningMin(t.pos, money, MaxValue).d;
    dh := RunningMin(t.pos, hostiles, MaxValue).d;
  }

  /** An empty list leaves its minimum at float.MaxValue, and then every tile
      gets the same spawn value whatever its distances. */
  lemma SpawnScoreWithoutTargets(t: Tile, money: seq<Pos>, hostiles: seq<Pos>)
    requires money == [] || hostiles == []
    ensures money != [] ==> SpawnScore(t, money, hostiles) == FloatMax * 0.5
    ensures money == [] && hostiles != [] ==> SpawnScore(t, money, hostiles) == -FloatMax
    ensures money == [] && hostiles == [] ==> SpawnScore(t, money, hostiles) == -FloatMax * 0.5
  {
    RunningMinIsMinimum(t.pos, money, MaxValue);
    RunningMinIsMinimum(t.pos, hostiles, MaxValue);
  }

  /** Hence, with no hostile agent or no money tile, the last empty tile is
      chosen, however far it is from the money. */
  lemma SpawnAtLastTileWithoutTargets(empty: seq<Tile>, money: seq<Pos>, hostiles: seq<Pos>)
    requires empty != []
    requires money == [] || hostiles == []
    ensures SpawnChoice(empty, money, hostiles) == Some(Last(empty))
  {
    var table := SpawnTable(empty, money, hostiles);
    forall j | 0 <= j < |table|
      ensures table[j].value == table[0].value
    {
      SpawnScoreWithoutTargets(empty[j], money, hostiles);
      SpawnScoreWithoutTargets(empty[0], money, hostiles);
    }
    AggregateOfTiesIsLast(table);
  }

  /** Order on running minima: float.MaxValue is above every distance. */
  predicate NoFarther(a: MinDist, b: MinDist)
  {
    b.MaxValue? || (a.Finite? && a.d <= b.d)
  }

  /** The spawn value never rises as the nearest money tile moves away and
      never falls as the nearest hostile agent moves away. */
  lemma SpawnValueMonotone(m1: MinDist, m2: MinDist, h1: MinDist, h2: MinDist)
    requires Absorbable(m1) && Absorbable(m2) && Absorbable(h1) && Absorbable(h2)
    requires NoFarther(m1, m2) && NoFarther(h1, h2)
    ensures SpawnValue(m2, h1) <= SpawnValue(m1, h1)
    ensures SpawnValue(m1, h1) <= SpawnValue(m1, h2)
  {
  }
}
