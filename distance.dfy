/** The heuristic distance between grid coordinates and the running minimum
    that both evaluators keep over a list of coordinates. */
module Distance {
  import opened GridModel

  function Abs(n: int): (a: nat)
    ensures a == n || a == -n
  {
    if n < 0 then -n else n
  }

  /** Manhattan distance between two coordinates. */
  function Heuristic(p1: Pos, p2: Pos): (d: nat)
    ensures d == 0 <==> p1 == p2
  {
    Abs(p1.x - p2.x) + Abs(p1.y - p2.y)
  }

  lemma HeuristicIsAMetric(p: Pos, q: Pos, r: Pos)
    ensures Heuristic(p, q) == Heuristic(q, p)
    ensures Heuristic(p, r) <= Heuristic(p, q) + Heuristic(q, r)
  {
  }

  /** A running minimum: a distance found so far, or the float.MaxValue the
      source starts from. Grid distances are far below float.MaxValue. */
  datatype MinDist = Finite(d: nat) | MaxValue

  /** The source's `distance < minimum`. */
  predicate Below(d: nat, m: MinDist)
  {
    m.MaxValue? || d < m.d
  }

  /** The minimum the source's loop leaves after visiting `targets` in order,
      starting from `init` and lowering it on every strictly smaller distance. */
  function RunningMin(p: Pos, targets: seq<Pos>, init: MinDist): (m: MinDist)
    ensures init.Finite? ==> m.Finite? && m.d <= init.d
    ensures m.MaxValue? <==> init.MaxValue? && targets == []
  {
    if targets == [] then init
    else
      var m := RunningMin(p, targets[..|targets| - 1], init);
      var d := Heuristic(p, Last(targets));
      if Below(d, m) then Finite(d) else m
  }

  /** The running minimum is the least of `init` and all distances to the
      targets, and it stays at float.MaxValue exactly when nothing lowered it. */
  lemma {:induction false} RunningMinIsMinimum(p: Pos, targets: seq<Pos>, init: MinDist)
    ensures var m := RunningMin(p, targets, init);
      && (forall i :: 0 <= i < |targets| ==> m.Finite? && m.d <= Heuristic(p, targets[i]))
      && (init.Finite? ==> m.Finite? && m.d <= init.d)
      && (m == init || exists i :: 0 <= i < |targets| && m == Finite(Heuristic(p, targets[i])))
      && (m.MaxValue? <==> init.MaxValue? && targets == [])
  {
    if targets != [] {
      var earlier := targets[..|targets| - 1];
      RunningMinIsMinimum(p, earlier, init);
      var m0 := RunningMin(p, earlier, init);
      if m0 != init {
        var i :| 0 <= i < |earlier| && m0 == Finite(Heuristic(p, earlier[i]));
        assert targets[i] == earlier[i];
      }
    }
  }
}
