/** The objective-path evaluator's scoring: every money tile other than the
    start that the pathfinder can reach is scored by its value, its path
    distance and its contention penalty, and the route to the best one is
    returned. */
module Objective {
  import opened GridModel
  import opened Distance
  import opened Selection

  predicate OwnedByHostile(t: Tile)
  {
    t.owner == AgentOwner(false)
  }

  /** The base value of an objective: 100, 300 when hidden, 600 when a hostile
      agent owns it, whatever its visibility. */
  function TileValue(t: Tile): (v: int)
    ensures v == 600 <==> OwnedByHostile(t)
    ensures v == 300 <==> t.hidden && !OwnedByHostile(t)
    ensures v == 100 <==> !t.hidden && !OwnedByHostile(t)
  {
    var value := if t.hidden then 300 else 100;
    if OwnedByHostile(t) then 600 else value
  }

  /** Contention counts only for tiles nobody owns or a friendly agent owns. */
  predicate ContentionApplies(t: Tile)
  {
    t.owner == Unowned || t.owner == AgentOwner(true)
  }

  /** C#'s unchecked `int` arithmetic: the result of an Int32 operation is
      the mathematical result reduced into [-2^31, 2^31). */
  function WrapInt32(x: int): (r: int)
    ensures -0x8000_0000 <= r < 0x8000_0000
    ensures (r - x) % 0x1_0000_0000 == 0
    ensures -0x8000_0000 <= x < 0x8000_0000 ==> r == x
  {
    (x + 0x8000_0000) % 0x1_0000_0000 - 0x8000_0000
  }

  /** The largest claim count whose penalty `c * c * 10` fits in an Int32. */
  const MaxSafeClaims: int := 14654

  /** `value * value * 10` on Int32 operands, wrapping as C# does. */
  function ClaimPenalty(c: int): (p: int)
    ensures -0x8000_0000 <= p < 0x8000_0000
    ensures (p - c * c * 10) % 0x1_0000_0000 == 0
    ensures p == WrapInt32(c * c * 10)
    ensures -MaxSafeClaims <= c <= MaxSafeClaims ==> p == c * c * 10 && p >= 0
  {
    SafeClaimSquare(c);
    var square := WrapInt32(c * c);
    WrapScaled(c * c, square, 10);
    WrapScaled(square * 10, WrapInt32(square * 10), 1);
    SumOfMultiples(WrapInt32(square * 10) - square * 10, square * 10 - c * c * 10);
    WrapIsUnique(c * c * 10, WrapInt32(square * 10));
    WrapInt32(square * 10)
  }

  /** A value in the Int32 range that is congruent to `x` modulo 2^32 is the
      reduction of `x`. */
  lemma WrapIsUnique(x: int, r: int)
    requires -0x8000_0000 <= r < 0x8000_0000
    requires (r - x) % 0x1_0000_0000 == 0
    ensures r == WrapInt32(x)
  {
    var w := WrapInt32(x);
    assert r - w == (r - x) - (w - x);
    assert (w - x) % 0x1_0000_0000 == 0;
    assert (x - w) % 0x1_0000_0000 == 0 by {
      assert w - x == ((w - x) / 0x1_0000_0000) * 0x1_0000_0000;
      assert x - w == (-((w - x) / 0x1_0000_0000)) * 0x1_0000_0000;
    }
    SumOfMultiples(r - x, x - w);
  }

  /** Scaling preserves congruence modulo 2^32. */
  lemma WrapScaled(x: int, r: int, f: int)
    requires (r - x) % 0x1_0000_0000 == 0
    ensures (r * f - x * f) % 0x1_0000_0000 == 0
  {
    var q := (r - x) / 0x1_0000_0000;
    assert r - x == q * 0x1_0000_0000;
    assert r * f - x * f == (q * f) * 0x1_0000_0000;
  }

  lemma SumOfMultiples(a: int, b: int)
    requires a % 0x1_0000_0000 == 0 && b % 0x1_0000_0000 == 0
    ensures (a + b) % 0x1_0000_0000 == 0
  {
    assert a == (a / 0x1_0000_0000) * 0x1_0000_0000;
    assert b == (b / 0x1_0000_0000) * 0x1_0000_0000;
    assert a + b == (a / 0x1_0000_0000 + b / 0x1_0000_0000) * 0x1_0000_0000;
  }

  /** Within the bound neither Int32 product wraps. */
  lemma SafeClaimSquare(c: int)
    ensures -MaxSafeClaims <= c <= MaxSafeClaims ==> 0 <= c * c <= 214739716 && 0 <= c * c * 10 <= 2147397160
  {
    if -MaxSafeClaims <= c <= MaxSafeClaims {
      var a := Abs(c);
      assert c * c == a * a;
      assert a * a <= MaxSafeClaims * a <= MaxSafeClaims * MaxSafeClaims;
    }
  }

  /** One claim past the bound, the Int32 product wraps and the penalty turns
      negative: 14655 * 14655 * 10 = 2147690250 reads as -2147277046. */
  lemma ClaimPenaltyWrapsPastBound()
    ensures ClaimPenalty(MaxSafeClaims + 1) == -2147277046
    ensures ClaimPenalty(MaxSafeClaims + 1) < 0 < ClaimPenalty(MaxSafeClaims)
  {
  }

  /** The contention penalty, from the number of other agents targeting the
      tile; a tile missing from the claim table reads its count as 0. */
  function Penalty(t: Tile, claims: map<Tile, int>): (p: int)
    ensures -0x8000_0000 <= p < 0x8000_0000
    ensures !ContentionApplies(t) || t !in claims ==> p == 0
    ensures ContentionApplies(t) && t in claims ==> p == WrapInt32(claims[t] * claims[t] * 10)
    ensures ContentionApplies(t) && t in claims && -MaxSafeClaims <= claims[t] <= MaxSafeClaims ==>
      p >= 0 && p == claims[t] * claims[t] * 10
  {
    if ContentionApplies(t) then
      if t in claims then ClaimPenalty(claims[t]) else 0 * 5
    else 0
  }

  /** Up to the Int32 bound, the penalty grows with the number of claims,
      quadratically. */
  lemma PenaltyGrowsWithClaims(t: Tile, claims: map<Tile, int>, more: map<Tile, int>)
    requires ContentionApplies(t) && t in claims && t in more
    requires 0 <= claims[t] <= more[t] <= MaxSafeClaims
    ensures Penalty(t, claims) <= Penalty(t, more)
    ensures Penalty(t, more) - Penalty(t, claims) >= 10 * (more[t] - claims[t]) * (more[t] - claims[t])
  {
    var c, m := claims[t], more[t];
    assert Penalty(t, claims) == c * c * 10 && Penalty(t, more) == m * m * 10;
    SquareGap(c, m);
  }

  lemma SquareGap(c: int, m: int)
    requires 0 <= c <= m
    ensures c * c * 10 <= m * m * 10
    ensures m * m * 10 - c * c * 10 >= 10 * (m - c) * (m - c)
  {
    var d := m - c;
    assert m * m == c * c + 2 * c * d + d * d;
    assert c * d >= 0;
  }

  /** A candidate is scored only when it is not the start tile and the
      pathfinder finds a non-empty path to it. */
  predicate Eligible(start: Tile, t: Tile, aStar: (Tile, Tile) -> Route)
  {
    t != start && aStar(start, t).path != []
  }

  /** The tactical value of a candidate reached along `route`: its base value
      less the path distance, further lowered by contention up to the Int32
      bound. */
  function TacticalValue(t: Tile, route: Route, claims: map<Tile, int>): (v: real)
    ensures !ContentionApplies(t) || t !in claims ==> v == TileValue(t) as real - route.distance
    ensures ContentionApplies(t) && t in claims && -MaxSafeClaims <= claims[t] <= MaxSafeClaims ==>
      v <= TileValue(t) as real - route.distance
  {
    TileValue(t) as real - route.distance - Penalty(t, claims) as real
  }

  /** The score table the evaluator builds, in the order of the money tiles. */
  function Objectives(start: Tile, money: seq<Pos>, tileAt: Pos -> Tile,
                      claims: map<Tile, int>, aStar: (Tile, Tile) -> Route): (table: seq<Entry<Tile>>)
    ensures |table| <= |money|
    ensures forall e :: e in table ==> Eligible(start, e.key, aStar)
  {
    if money == [] then []
    else
      var earlier := Objectives(start, money[..|money| - 1], tileAt, claims, aStar);
      var t := tileAt(Last(money));
      if Eligible(start, t, aStar) then earlier + [Entry(t, TacticalValue(t, aStar(start, t), claims))]
      else earlier
  }

  /** The route the evaluator returns: the path to the winner of the table, or
      None when no candidate was scored. */
  function BestPath(start: Tile, money: seq<Pos>, tileAt: Pos -> Tile,
                    claims: map<Tile, int>, aStar: (Tile, Tile) -> Route): (r: Option<seq<Tile>>)
    ensures r.None? <==> Objectives(start, money, tileAt, claims, aStar) == []
    ensures r.Some? ==> r.value != []
  {
    var table := Objectives(start, money, tileAt, claims, aStar);
    if table == [] then None
    else
      var best := Aggregate(table);
      assert Eligible(start, best.key, aStar);
      Some(aStar(start, best.key).path)
  }

  /** The table holds exactly the eligible money tiles, each with its
      tactical value. */
  lemma {:induction false} ObjectivesAreTheEligible(start: Tile, money: seq<Pos>, tileAt: Pos -> Tile,
                                                    claims: map<Tile, int>, aStar: (Tile, Tile) -> Route)
    ensures var table := Objectives(start, money, tileAt, claims, aStar);
      && (forall e :: e in table ==>
            && e.value == TacticalValue(e.key, aStar(start, e.key), claims)
            && exists i :: 0 <= i < |money| && tileAt(money[i]) == e.key)
      && (forall i :: 0 <= i < |money| && Eligible(start, tileAt(money[i]), aStar) ==>
            tileAt(money[i]) in Keys(table))
  {
    if money != [] {
      var earlier := money[..|money| - 1];
      ObjectivesAreTheEligible(start, earlier, tileAt, claims, aStar);
      var before := Objectives(start, earlier, tileAt, claims, aStar);
      var table := Objectives(start, money, tileAt, claims, aStar);
      assert forall i :: 0 <= i < |earlier| ==> money[i] == earlier[i];
      assert forall k :: k in Keys(before) ==> k in Keys(table) by {
        forall k | k in Keys(before) ensures k in Keys(table) {
          var j :| 0 <= j < |before| && Keys(before)[j] == k;
          assert table[j] == before[j];
          assert Keys(table)[j] == k;
        }
      }
      var t := tileAt(Last(money));
      if Eligible(start, t, aStar) {
        assert Keys(table)[|table| - 1] == t;
      }
    }
  }

  /** No route is returned exactly when every money tile is the start tile or
      unreachable. */
  lemma NoPathIffNoCandidate(start: Tile, money: seq<Pos>, tileAt: Pos -> Tile,
                             claims: map<Tile, int>, aStar: (Tile, Tile) -> Route)
    ensures BestPath(start, money, tileAt, claims, aStar).None? <==>
      forall i :: 0 <= i < |money| ==> !Eligible(start, tileAt(money[i]), aStar)
  {
    ObjectivesAreTheEligible(start, money, tileAt, claims, aStar);
    var table := Objectives(start, money, tileAt, claims, aStar);
    if table != [] {
      var e := table[0];
      var i :| 0 <= i < |money| && tileAt(money[i]) == e.key;
      assert Eligible(start, tileAt(money[i]), aStar);
    }
  }

  /** When a route is returned, it is the pathfinder's non-empty path to a
      money tile other than the start whose tactical value is maximal, and
      every later candidate scores strictly less. */
  lemma BestPathIsLastBest(start: Tile, money: seq<Pos>, tileAt: Pos -> Tile,
                           claims: map<Tile, int>, aStar: (Tile, Tile) -> Route) returns (goal: Tile, k: nat)
    requires Objectives(start, money, tileAt, claims, aStar) != []
    ensures BestPath(start, money, tileAt, claims, aStar) == Some(aStar(start, goal).path)
    ensures goal != start && aStar(start, goal).path != []
    ensures exists i :: 0 <= i < |money| && tileAt(money[i]) == goal
    ensures k < |Objectives(start, money, tileAt, claims, aStar)|
    ensures Objectives(start, money, tileAt, claims, aStar)[k] == Entry(goal, TacticalValue(goal, aStar(start, goal), claims))
    ensures forall j :: 0 <= j < |Objectives(start, money, tileAt, claims, aStar)| ==>
      Objectives(start, money, tileAt, claims, aStar)[j].value <= TacticalValue(goal, aStar(start, goal), claims)
    ensures forall j :: k < j < |Objectives(start, money, tileAt, claims, aStar)| ==>
      Objectives(start, money, tileAt, claims, aStar)[j].value < TacticalValue(goal, aStar(start, goal), claims)
  {
    var table := Objectives(start, money, tileAt, claims, aStar);
    ObjectivesAreTheEligible(start, money, tileAt, claims, aStar);
    k := AggregateIsLastMaximum(table);
    goal := table[k].key;
    assert table[k] in table;
  }

  /** The value of the money tile at `p` as a candidate from `start`. */
  function CandidateValue(start: Tile, p: Pos, tileAt: Pos -> Tile,
                          claims: map<Tile, int>, aStar: (Tile, Tile) -> Route): real
  {
    TacticalValue(tileAt(p), aStar(start, tileAt(p)), claims)
  }

  /** In terms of the money list: the table's winner is the money tile at some
      eligible index `i`; no eligible money tile scores more, and every
      eligible money tile listed after it scores strictly less. */
  lemma {:induction false} WinnerIsLastBestMoneyTile(start: Tile, money: seq<Pos>, tileAt: Pos -> Tile,
                                                      claims: map<Tile, int>, aStar: (Tile, Tile) -> Route) returns (i: nat)
    requires Objectives(start, money, tileAt, claims, aStar) != []
    ensures i < |money| && Eligible(start, tileAt(money[i]), aStar)
    ensures Aggregate(Objectives(start, money, tileAt, claims, aStar))
      == Entry(tileAt(money[i]), CandidateValue(start, money[i], tileAt, claims, aStar))
    ensures forall j :: 0 <= j < |money| && Eligible(start, tileAt(money[j]), aStar) ==>
      CandidateValue(start, money[j], tileAt, claims, aStar) <= CandidateValue(start, money[i], tileAt, claims, aStar)
    ensures forall j :: i < j < |money| && Eligible(start, tileAt(money[j]), aStar) ==>
      CandidateValue(start, money[j], tileAt, claims, aStar) < CandidateValue(start, money[i], tileAt, claims, aStar)
    ensures BestPath(start, money, tileAt, claims, aStar) == Some(aStar(start, tileAt(money[i])).path)
  {
    var keep := p => Eligible(start, tileAt(p), aStar);
    var score := p => CandidateValue(start, p, tileAt, claims, aStar);
    ObjectivesAreScored(start, money, tileAt, claims, aStar);
    i := ScoredWinnerIsLastBest(money, keep, tileAt, score);
  }

  /** The objective table is the money list filtered by eligibility and
      scored by candidate value. */
  lemma {:induction false} ObjectivesAreScored(start: Tile, money: seq<Pos>, tileAt: Pos -> Tile,
                                               claims: map<Tile, int>, aStar: (Tile, Tile) -> Route)
    ensures Objectives(start, money, tileAt, claims, aStar)
      == Scored(money, p => Eligible(start, tileAt(p), aStar), tileAt, p => CandidateValue(start, p, tileAt, claims, aStar))
  {
    if money != [] {
      ObjectivesAreScored(start, money[..|money| - 1], tileAt, claims, aStar);
    }
  }

  /** A tile owned by a hostile agent is never penalised, whatever the claim
      table says about it. */
  lemma HostileTileNeverPenalised(t: Tile, route: Route, claims: map<Tile, int>)
    requires OwnedByHostile(t)
    ensures TacticalValue(t, route, claims) == 600.0 - route.distance
  {
  }

  // A worked scenario: money tiles at (0,0), visible and unowned, and at
  // (5,5), hidden; start at (2,2); paths as long as the Manhattan distance.

  function ScenarioTile(p: Pos, hostileAt55: bool): Tile
  {
    if p == Pos(5, 5) then Tile(p, true, if hostileAt55 then AgentOwner(false) else Unowned)
    else Tile(p, false, Unowned)
  }

  function ManhattanRoute(s: Tile, g: Tile): Route
  {
    Route([s, g], Heuristic(s.pos, g.pos) as real)
  }

  /** With no claims, (0,0) is worth 100 - 4 = 96 and (5,5) 300 - 6 = 294, so
      the route leads to (5,5); once a hostile agent owns (5,5) it is worth
      600 - 6 = 594 and still wins whatever its own claim count, as long as
      the count for (0,0) stays within the Int32 bound. */
  lemma ScenarioHiddenOrHostileTileWins(hostileAt55: bool, claims: map<Tile, int>)
    requires !hostileAt55 ==> claims == map[]
    requires var near := ScenarioTile(Pos(0, 0), hostileAt55);
      near in claims ==> -MaxSafeClaims <= claims[near] <= MaxSafeClaims
    ensures var start := Tile(Pos(2, 2), false, Unowned);
      var tileAt := p => ScenarioTile(p, hostileAt55);
      BestPath(start, [Pos(0, 0), Pos(5, 5)], tileAt, claims, ManhattanRoute)
        == Some([start, ScenarioTile(Pos(5, 5), hostileAt55)])
  {
    var start := Tile(Pos(2, 2), false, Unowned);
    var tileAt := p => ScenarioTile(p, hostileAt55);
    var money := [Pos(0, 0), Pos(5, 5)];
    var near, far := tileAt(Pos(0, 0)), tileAt(Pos(5, 5));
    assert money[..1] == [Pos(0, 0)];
    assert Objectives(start, money[..1], tileAt, claims, ManhattanRoute) == [Entry(near, 96.0 - Penalty(near, claims) as real)];
    var table := Objectives(start, money, tileAt, claims, ManhattanRoute);
    assert table == [Entry(near, 96.0 - Penalty(near, claims) as real), Entry(far, if hostileAt55 then 594.0 else 294.0)];
    assert Aggregate(table) == table[1];
  }
}
