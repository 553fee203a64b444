/** The selection rule both evaluators share: a score table kept in insertion
    order, folded with `Aggregate((x, y) => x.Value > y.Value ? x : y)`. */
module Selection {

  /** One key/value pair of an insertion-ordered score table. */
  datatype Entry<K> = Entry(key: K, value: real)

  function Keys<K>(table: seq<Entry<K>>): (ks: seq<K>)
    ensures |ks| == |table|
  {
    seq(|table|, i requires 0 <= i < |table| => table[i].key)
  }

  /** One step of the fold: the accumulator survives only when strictly better. */
  function Better<K>(acc: Entry<K>, next: Entry<K>): Entry<K>
  {
    if acc.value > next.value then acc else next
  }

  /** The left fold of `Better` over a non-empty table. */
  function Aggregate<K>(table: seq<Entry<K>>): (best: Entry<K>)
    requires table != []
    ensures best in table
  {
    if |table| == 1 then table[0]
    else Better(Aggregate(table[..|table| - 1]), table[|table| - 1])
  }

  /** The fold picks an entry of maximal value, and no later entry ties with
      it: on a tie the last maximal entry in insertion order wins. */
  lemma {:induction false} AggregateIsLastMaximum<K>(table: seq<Entry<K>>) returns (k: nat)
    requires table != []
    ensures k < |table| && Aggregate(table) == table[k]
    ensures forall j :: 0 <= j < |table| ==> table[j].value <= table[k].value
    ensures forall j :: k < j < |table| ==> table[j].value < table[k].value
  {
    if |table| == 1 {
      k := 0;
    } else {
      var earlier := table[..|table| - 1];
      var k0 := AggregateIsLastMaximum(earlier);
      if earlier[k0].value > table[|table| - 1].value {
        k := k0;
      } else {
        k := |table| - 1;
      }
    }
  }

  /** Appending an entry takes one more step of the fold. */
  lemma AggregateOfAppended<K>(table: seq<Entry<K>>, e: Entry<K>)
    requires table != []
    ensures Aggregate(table + [e]) == Better(Aggregate(table), e)
  {
    assert (table + [e])[..|table|] == table;
  }

  /** When every entry scores the same, the last entry wins. */
  lemma AggregateOfTiesIsLast<K>(table: seq<Entry<K>>)
    requires table != []
    requires forall j :: 0 <= j < |table| ==> table[j].value == table[0].value
    ensures Aggregate(table) == table[|table| - 1]
  {
    var k := AggregateIsLastMaximum(table);
    assert table[k].value == table[|table| - 1].value;
  }

  /** The table built from a list by keeping some items and scoring each kept
      one: one entry per kept item, in list order. */
  function Scored<P, K>(items: seq<P>, keep: P -> bool, key: P -> K, score: P -> real): seq<Entry<K>>
  {
    if items == [] then []
    else
      var earlier := Scored(items[..|items| - 1], keep, key, score);
      var p := items[|items| - 1];
      if keep(p) then earlier + [Entry(key(p), score(p))] else earlier
  }

  /** A scored table is empty exactly when no item is kept. */
  lemma {:induction false} ScoredIsEmpty<P, K>(items: seq<P>, keep: P -> bool, key: P -> K, score: P -> real)
    ensures Scored(items, keep, key, score) == [] <==> forall j :: 0 <= j < |items| ==> !keep(items[j])
  {
    if items != [] {
      var earlier := items[..|items| - 1];
      ScoredIsEmpty(earlier, keep, key, score);
      assert forall j :: 0 <= j < |earlier| ==> items[j] == earlier[j];
    }
  }

  /** In terms of the list: the fold of a scored table returns the entry of a
      kept item `i` whose score no kept item exceeds and every kept item after
      which scores strictly less. */
  lemma {:induction false} ScoredWinnerIsLastBest<P, K>(items: seq<P>, keep: P -> bool, key: P -> K, score: P -> real)
    returns (i: nat)
    requires Scored(items, keep, key, score) != []
    ensures i < |items| && keep(items[i])
    ensures Aggregate(Scored(items, keep, key, score)) == Entry(key(items[i]), score(items[i]))
    ensures forall j :: 0 <= j < |items| && keep(items[j]) ==> score(items[j]) <= score(items[i])
    ensures forall j :: i < j < |items| && keep(items[j]) ==> score(items[j]) < score(items[i])
  {
    var n := |items|;
    var earlier := items[..n - 1];
    var p := items[n - 1];
    var before := Scored(earlier, keep, key, score);
    assert forall j :: 0 <= j < n - 1 ==> items[j] == earlier[j];
    if before == [] {
      ScoredIsEmpty(earlier, keep, key, score);
      i := n - 1;
    } else {
      var i0 := ScoredWinnerIsLastBest(earlier, keep, key, score);
      if keep(p) {
        AggregateOfAppended(before, Entry(key(p), score(p)));
      }
      i := if keep(p) && score(earlier[i0]) <= score(p) then n - 1 else i0;
    }
  }
}
