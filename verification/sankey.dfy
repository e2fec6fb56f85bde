/**
 * The fixed-calendar pipeline.  The wide table is melted, rows without a team are
 * dropped, and the months are the ten fixed categories May to Feb.  For every pair
 * of consecutive categories the team changes are counted per `(Team_from,
 * Team_to)` (`value_counts`); the per-pair counts are stacked and summed per key
 * (`groupby(...).sum()`), and the sums become the links of the diagram.
 */
module Sankey {
  import opened Table
  import opened Sorting
  import opened Moves
  import opened Groups
  import opened Labels

  /** The month categories, in order.  A month label outside this list becomes a
      missing category and so equals none of them. */
  const Months: seq<string> := ["May", "June", "July", "Aug", "Sept", "Oct", "Nov", "Dec", "Jan", "Feb"]

  /** The records: melted cells whose team is present. */
  function Normalize(columns: seq<string>, rows: seq<Row>): seq<Record<string>>
    requires Rectangular(columns, rows)
  {
    DropMissing(Melt(columns, rows))
  }

  /** With one row per person and distinct month labels, the records hold one
      record per person and month. */
  lemma NormalizeOneRecord(columns: seq<string>, rows: seq<Row>)
    requires Rectangular(columns, rows) && OneRowPerPerson(rows) && NoDup(columns)
    ensures OneRecordPerMonth(Normalize(columns, rows))
  {
    var labels := set c | c in columns;
    var cells := Melt(columns, rows);
    MeltSlots(columns, rows, labels);
    assert OneCellPerSlot(cells) by {
      assert forall i :: 0 <= i < |cells| ==> cells[i] in cells;
    }
    DropMissingSlots(cells);
  }

  /** `value_counts()` of the team changes between `m1` and `m2`. */
  function PairCounts<M(==,!new)>(records: seq<Record<M>>, m1: M, m2: M): seq<Edge>
  {
    Group(Units(PairMoves(records, m1, m2)))
  }

  /** The list `transitions`: one count table per pair of consecutive months, in
      month order. */
  function PairTables<M(==,!new)>(records: seq<Record<M>>, months: seq<M>): (tables: seq<seq<Edge>>)
    ensures |tables| == if |months| < 2 then 0 else |months| - 1
  {
    if |months| < 2 then []
    else
      var n := |months|;
      PairTables(records, months[..n - 1]) + [PairCounts(records, months[n - 2], months[n - 1])]
  }

  /** Entry `i` of `transitions` counts the changes between month `i` and month
      `i + 1`. */
  lemma {:induction false} PairTablesAt<M(!new)>(records: seq<Record<M>>, months: seq<M>, i: nat)
    requires i < |months| - 1
    ensures PairTables(records, months)[i] == PairCounts(records, months[i], months[i + 1])
    decreases |months|
  {
    var n := |months|;
    if i < n - 2 {
      PairTablesAt(records, months[..n - 1], i);
      assert months[..n - 1][i] == months[i] && months[..n - 1][i + 1] == months[i + 1];
    }
  }

  /** Extending the months by one adds the table of the new last pair. */
  lemma PairTablesSnoc<M(!new)>(records: seq<Record<M>>, months: seq<M>, i: nat)
    requires i + 2 <= |months|
    ensures PairTables(records, months[..i + 2]) ==
      PairTables(records, months[..i + 1]) + [PairCounts(records, months[i], months[i + 1])]
  {
    assert months[..i + 2][..i + 1] == months[..i + 1];
  }

  /** The loop over `range(len(months) - 1)` that appends one count table per pair
      of consecutive months. */
  method CollectPairCounts<M(==,!new)>(records: seq<Record<M>>, months: seq<M>) returns (transitions: seq<seq<Edge>>)
    ensures transitions == PairTables(records, months)
  {
    transitions := [];
    var i := 0;
    while i < |months| - 1
      invariant 0 <= i <= if |months| < 2 then 0 else |months| - 1
      invariant transitions == if |months| == 0 then [] else PairTables(records, months[..i + 1])
    {
      var monthFrom, monthTo := months[i], months[i + 1];
      var dfFrom, dfTo := AtMonth(records, monthFrom), AtMonth(records, monthTo);
      var merged := Changes(Join(dfFrom, dfTo));
      var counts := Group(Units(merged));
      assert counts == PairCounts(records, monthFrom, monthTo);
      PairTablesSnoc(records, months, i);
      transitions := transitions + [counts];
      i := i + 1;
    }
    if |months| >= 1 {
      assert months[..i + 1] == months;
    }
  }

  /** `pd.concat(transitions).groupby(["Team_from", "Team_to"]).sum()`. */
  function Totals(records: seq<Record<string>>, months: seq<string>): seq<Edge>
  {
    Group(Stack(PairTables(records, months)))
  }

  /** Summing the per-pair counts of a key gives the number of team changes with that
      key over the whole timeline. */
  lemma {:induction false} StackedCounts(records: seq<Record<string>>, months: seq<string>, k: (string, string))
    ensures Weight(Stack(PairTables(records, months)), k) == CountMoves(AllMoves(records, months), k)
    decreases |months|
  {
    var n := |months|;
    if n >= 2 {
      var front := months[..n - 1];
      var tables := PairTables(records, months);
      var pair := PairMoves(records, months[n - 2], months[n - 1]);
      StackedCounts(records, front, k);
      assert months[..n - 1] == front;
      WeightConcat(Stack(PairTables(records, front)), tables[n - 2], k);
      GroupSpec(Units(pair), k);
      UnitsSpec(pair, k);
      CountMovesConcat(AllMoves(records, front), pair, k);
    }
  }

  /** Every count row of one pair is a real movement with a positive count. */
  lemma PairCountsProper(records: seq<Record<string>>, m1: string, m2: string)
    ensures forall e :: e in PairCounts(records, m1, m2) ==> Proper(e)
  {
    var pair := PairMoves(records, m1, m2);
    assert forall mv :: mv in pair ==> mv.from != mv.to;
    UnitsSpec(pair, ("", ""));
    GroupKeeps(Units(pair));
  }

  /** Every stacked count row is a real movement with a positive count. */
  lemma StackedProper(records: seq<Record<string>>, months: seq<string>)
    ensures forall e :: e in Stack(PairTables(records, months)) ==> Proper(e)
  {
    var tables := PairTables(records, months);
    forall e | e in Stack(tables)
      ensures Proper(e)
    {
      StackMembers(tables, e);
      var i :| 0 <= i < |tables| && e in tables[i];
      PairTablesAt(records, months, i);
      PairCountsProper(records, months[i], months[i + 1]);
    }
  }

  /** `all_transitions` holds each key once, in key order; an edge's count is the
      number of team changes with its key over all pairs of consecutive months,
      there is no self-loop and every count is at least one; and a key has an edge
      exactly when at least one such change happened. */
  lemma TotalsSpec(records: seq<Record<string>>, months: seq<string>, k: (string, string))
    ensures Sorted(Totals(records, months))
    ensures forall e :: e in Totals(records, months) ==> Proper(e)
    ensures forall i :: 0 <= i < |Totals(records, months)| ==>
      Totals(records, months)[i].count == CountMoves(AllMoves(records, months), Key(Totals(records, months)[i]))
    ensures (exists i :: 0 <= i < |Totals(records, months)| && Key(Totals(records, months)[i]) == k) <==>
      CountMoves(AllMoves(records, months), k) > 0
  {
    var rows := Stack(PairTables(records, months));
    var totals := Totals(records, months);
    GroupSpec(rows, k);
    StackedProper(records, months);
    GroupKeeps(rows);
    StackedCounts(records, months, k);
    forall i | 0 <= i < |totals|
      ensures totals[i].count == CountMoves(AllMoves(records, months), Key(totals[i]))
    {
      GroupSpec(rows, Key(totals[i]));
      StackedCounts(records, months, Key(totals[i]));
      SortedEdge(totals, i);
    }
    if Weight(totals, k) > 0 {
      WeightPositive(totals, k);
    }
    if exists i :: 0 <= i < |totals| && Key(totals[i]) == k {
      var i :| 0 <= i < |totals| && Key(totals[i]) == k;
      SortedEdge(totals, i);
      assert totals[i] in totals;
    }
  }

  /** With one record per person and month, an edge's count is the number of people
      who made its change, summed over the pairs of consecutive months. */
  lemma TotalsCountChangers(records: seq<Record<string>>, months: seq<string>)
    requires OneRecordPerMonth(records)
    ensures forall i :: 0 <= i < |Totals(records, months)| ==>
      Totals(records, months)[i].count == ChangeCount(records, months, Key(Totals(records, months)[i]))
  {
    var totals := Totals(records, months);
    TotalsSpec(records, months, ("", ""));
    forall i | 0 <= i < |totals|
      ensures totals[i].count == ChangeCount(records, months, Key(totals[i]))
    {
      AllMovesCount(records, months, Key(totals[i]));
    }
  }

  /** With one record per person and month, the drawn diagram weighs each link by the
      number of people who left its source team for its target team between two
      consecutive months, summed over the timeline; the sort by person changes none
      of these weights. */
  lemma DiagramCounts(records: seq<Record<string>>, months: seq<string>)
    requires OneRecordPerMonth(records)
    ensures var d := Draw(Totals(SortByPerson(records), months));
      forall l :: l in d.links ==>
        && l.source < |d.labels| && l.target < |d.labels|
        && l.value == ChangeCount(records, months, (d.labels[l.source], d.labels[l.target]))
  {
    var sorted := SortByPerson(records);
    var totals := Totals(sorted, months);
    var d := Draw(totals);
    SortKeepsOneRecord(records);
    TotalsCountChangers(sorted, months);
    DrawSpec(totals);
    forall l | l in d.links
      ensures l.source < |d.labels| && l.target < |d.labels|
      ensures l.value == ChangeCount(records, months, (d.labels[l.source], d.labels[l.target]))
    {
      var i :| 0 <= i < |d.links| && d.links[i] == l;
      SortedChangeCount(records, months, Key(totals[i]));
    }
  }

  /** The whole script on a wide table whose month columns are labelled `columns`:
      the diagram has distinct labels, one link per team pair that anyone moved
      along, with distinct in-range endpoints and a positive weight. */
  method Run(columns: seq<string>, rows: seq<Row>) returns (d: Diagram)
    requires Rectangular(columns, rows)
    ensures d == Draw(Totals(SortByPerson(Normalize(columns, rows)), Months))
    ensures NoDup(d.labels)
    ensures forall l :: l in d.links ==>
      l.source < |d.labels| && l.target < |d.labels| && l.source != l.target && l.value >= 1
    ensures OneRecordPerMonth(Normalize(columns, rows)) ==> forall l :: l in d.links ==>
      && l.source < |d.labels| && l.target < |d.labels|
      && l.value == ChangeCount(Normalize(columns, rows), Months, (d.labels[l.source], d.labels[l.target]))
  {
    var records := Normalize(columns, rows);
    if OneRecordPerMonth(records) {
      DiagramCounts(records, Months);
    }
    records := SortByPerson(records);
    var transitions := CollectPairCounts(records, Months);
    var allTransitions := Group(Stack(transitions));
    d := Draw(allTransitions);
    TotalsSpec(records, Months, ("", ""));
    DrawSpec(allTransitions);
    forall l | l in d.links
      ensures l.source < |d.labels| && l.target < |d.labels| && l.source != l.target && l.value >= 1
    {
      var i :| 0 <= i < |d.links| && d.links[i] == l;
      assert allTransitions[i] in allTransitions;
    }
  }
}
