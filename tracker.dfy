/** `CardShoeTracker`: wraps a shoe and counts, per value and suit, the
    cards its `pop` has handed out. Every other shoe operation is passed
    through unchanged. */
module Tracker {
  import opened Cards
  import opened Options
  import opened Seqs
  import opened Shoe
  import opened RandomShoe

  /** A table with no card in it. */
  function Empty(): (t: Table)
    ensures WellFormed(t) && Total(t) == 0
    ensures forall i, j :: 0 <= i < 13 && 0 <= j < 4 ==> t[i][j] == 0
  {
    FullDeckFacts(0);
    FullDeck(0)
  }

  /** `Put` raises exactly one cell. */
  lemma PutCells(t: Table, c: Card)
    requires WellFormed(t) && c.v.IsRank()
    ensures forall i, j :: 0 <= i < 13 && 0 <= j < 4 ==>
      Put(t, c)[i][j] == if i == c.v.Index() && j == c.s.Index() then t[i][j] + 1 else t[i][j]
  {
  }

  /** Adding the count of the `k`-th value extends the running total over
      the first `k` values by one row. */
  lemma RowsStep(t: Table, k: nat)
    requires WellFormed(t) && k < 13
    ensures VALUES[k].IsRank()
    ensures Sum(RowSums(t)[..k + 1]) == Sum(RowSums(t)[..k]) + CountOf(t, VALUES[k])
  {
    ValuesAreRanks();
    assert VALUES[k].Index() == k;
    SumPrefixStep(RowSums(t), k);
  }

  /** The running total over all thirteen values is the table's total. */
  lemma RowsAll(t: Table)
    requires WellFormed(t)
    ensures Sum(RowSums(t)[..13]) == Total(t)
  {
    assert RowSums(t)[..13] == RowSums(t);
  }

  class CardShoeTracker {
    /** `counts[value][suit]`: the cards of each kind popped so far. */
    const counts: array2<nat>
    const wrapping: GenericDirectShoe
    /** The popped cards as a table, mirroring `counts`. */
    ghost var seen: Table
    /** The number of successful pops. */
    ghost var pops: nat

    ghost predicate Valid()
      reads this, counts, wrapping, wrapping.Repr
    {
      counts.Length0 == 13 && counts.Length1 == 4
      && counts !in wrapping.Repr && this !in wrapping.Repr
      && wrapping.Valid()
      && Mirrors()
    }

    /** `counts` holds `seen` cell by cell, and `seen` holds every pop. */
    ghost predicate Mirrors()
      reads this, counts
      requires counts.Length0 == 13 && counts.Length1 == 4
    {
      WellFormed(seen)
      && (forall i, j :: 0 <= i < 13 && 0 <= j < 4 ==> counts[i, j] == seen[i][j])
      && Total(seen) == pops
    }

    /** A tracker with all counters at zero. */
    constructor (w: GenericDirectShoe)
      requires w.Valid()
      ensures Valid() && wrapping == w && fresh(counts)
      ensures seen == Empty() && pops == 0
    {
      var zeros := new nat[13, 4]((i, j) => 0);
      counts := zeros;
      wrapping := w;
      seen := Empty();
      pops := 0;
    }

    /** `pop`: the wrapped shoe's pop; a card it hands out is counted under
        its value and suit, and a None leaves the counters alone. */
    method Pop(drawValue: nat, drawSuit: nat) returns (r: Option<Card>)
      requires Valid()
      modifies this, counts, wrapping, wrapping.Repr
      ensures Valid()
      ensures PopStep(old(wrapping.table), r, wrapping.table)
      ensures r.None? ==> seen == old(seen) && pops == old(pops)
      ensures r.Some? ==> seen == Put(old(seen), r.value) && pops == old(pops) + 1
    {
      r := wrapping.Pop(drawValue, drawSuit);
      match r
      case None =>
      case Some(c) =>
        var i := c.v.Index();
        var j := c.s.Index();
        counts[i, j] := counts[i, j] + 1;
        PutCells(seen, c);
        PutFacts(seen, c);
        seen := Put(seen, c);
        pops := pops + 1;
    }

    /** `len`: the wrapped shoe's length. */
    function Len(): (n: nat)
      reads this, counts, wrapping, wrapping.Repr
      requires Valid()
      ensures n == Total(wrapping.table)
    {
      wrapping.Len()
    }

    /** `count(v)`: the wrapped shoe's count. */
    function Count(v: Value): (n: nat)
      reads this, counts, wrapping, wrapping.Repr
      requires Valid() && v.IsRank()
      ensures n == CountOf(wrapping.table, v)
    {
      wrapping.Count(v)
    }

    /** `remove(v)`: the wrapped shoe's remove; not counted as seen. */
    method Remove(v: Value, drawSuit: nat) returns (r: Option<Card>)
      requires Valid() && v.IsRank()
      modifies wrapping, wrapping.Repr
      ensures Valid()
      ensures RemoveStep(old(wrapping.table), v, r, wrapping.table)
    {
      r := wrapping.Remove(v, drawSuit);
    }

    /** `insert(c)`: the wrapped shoe's insert; the counters stay. */
    method Insert(c: Card)
      requires Valid() && c.v.IsRank()
      modifies wrapping, wrapping.Repr
      ensures Valid()
      ensures InsertStep(old(wrapping.table), c, wrapping.table)
    {
      wrapping.Insert(c);
    }

    /** `count_value(v)`: the four suit counters of `v`, summed. */
    method CountValue(v: Value) returns (n: nat)
      requires Valid() && v.IsRank()
      ensures n == CountOf(seen, v)
    {
      var i := v.Index();
      n := 0;
      for j := 0 to 4
        invariant n == Sum(seen[i][..j])
      {
        SumPrefixStep(seen[i], j);
        n := n + counts[i, j];
      }
      assert seen[i][..4] == seen[i];
    }

    /** `seen_cards`: `count_value` summed over the thirteen values, which
        is the number of successful pops. */
    method SeenCards() returns (n: nat)
      requires Valid()
      ensures n == Total(seen) && n == pops
    {
      n := 0;
      for k := 0 to 13
        invariant n == Sum(RowSums(seen)[..k])
      {
        RowsStep(seen, k);
        var c := CountValue(VALUES[k]);
        n := n + c;
      }
      RowsAll(seen);
    }
  }
}
