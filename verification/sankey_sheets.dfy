/**
 * The date-range pipeline.  Month column labels are parsed as `"%B %Y"` (a label
 * that does not parse is missing, NaT); melted rows are kept when their month lies
 * within `[start, end]`, then rows without a team are dropped.  The months are the
 * month starts from `start` to `end`.  For every pair of consecutive months the
 * team changes are collected with their person; all of them are stacked and
 * grouped per `(Team_from, Team_to)`, with the people joined and counted.
 */
module SankeySheets {
  import opened Wrappers
  import opened Calendar
  import opened Table
  import opened Sorting
  import opened Moves
  import opened Groups
  import opened Labels

  /** `pd.concat([])` raises when there is nothing to concatenate. */
  datatype Error = NoObjectsToConcatenate

  /** `(Month >= start) & (Month <= end)` on a parsed label; a missing (NaT) label
      fails both comparisons. */
  predicate InRange(parsed: Option<YearMonth>, start: Date, end: Date)
  {
    parsed.Some? && DateLeq(start, Start(parsed.value)) && DateLeq(Start(parsed.value), end)
  }

  /** The range filter; the kept rows' months become their `YYYY-MM` keys. */
  function FilterRange(cells: seq<Cell<Option<YearMonth>>>, start: Date, end: Date): (kept: seq<Cell<YearMonth>>)
    ensures forall c :: c in kept <==> Cell(c.person, Some(c.month), c.team) in cells && InRange(Some(c.month), start, end)
    ensures forall c ::
              multiset(kept)[c] ==
              (if InRange(Some(c.month), start, end) then multiset(cells)[Cell(c.person, Some(c.month), c.team)] else 0)
  {
    if cells == [] then []
    else
      var front := FilterRange(cells[..|cells| - 1], start, end);
      var c := cells[|cells| - 1];
      assert cells == cells[..|cells| - 1] + [c];
      if InRange(c.month, start, end) then front + [Cell(c.person, c.month.value, c.team)] else front
  }

  /** The records: melted cells inside the range whose team is present. */
  function Normalize(columns: seq<Option<YearMonth>>, rows: seq<Row>, start: Date, end: Date): seq<Record<YearMonth>>
    requires Rectangular(columns, rows)
  {
    DropMissing(FilterRange(Melt(columns, rows), start, end))
  }

  /** A record stands for exactly one present cell of the table whose month label
      parsed to a month within `[start, end]`; an unparsable label never yields one. */
  lemma NormalizeExactly(columns: seq<Option<YearMonth>>, rows: seq<Row>, start: Date, end: Date, r: Record<YearMonth>)
    requires Rectangular(columns, rows)
    ensures r in Normalize(columns, rows, start, end) <==>
      && DateLeq(start, Start(r.month)) && DateLeq(Start(r.month), end)
      && (exists i, j :: 0 <= i < |rows| && 0 <= j < |columns| &&
            rows[i].person == r.person && columns[j] == Some(r.month) && rows[i].teams[j] == Some(r.team))
  {
    var cells := Melt(columns, rows);
    var kept := FilterRange(cells, start, end);
    var c := Cell(r.person, Some(r.month), Some(r.team));
    assert r in Normalize(columns, rows, start, end) <==> Cell(r.person, r.month, Some(r.team)) in kept;
    assert Cell(r.person, r.month, Some(r.team)) in kept <==> c in cells && InRange(Some(r.month), start, end);
    if c in cells {
      var i, j :| 0 <= i < |rows| && 0 <= j < |columns| && c == Cell(rows[i].person, columns[j], rows[i].teams[j]);
      assert rows[i].person == r.person && columns[j] == Some(r.month) && rows[i].teams[j] == Some(r.team);
    }
    if exists i, j :: 0 <= i < |rows| && 0 <= j < |columns| &&
        rows[i].person == r.person && columns[j] == Some(r.month) && rows[i].teams[j] == Some(r.team) {
      var i, j :| 0 <= i < |rows| && 0 <= j < |columns| &&
        rows[i].person == r.person && columns[j] == Some(r.month) && rows[i].teams[j] == Some(r.team);
      assert c == Cell(rows[i].person, columns[j], rows[i].teams[j]);
    }
  }

  /** No two long rows share a person and a parsed month. */
  predicate OneCellPerParsedSlot(cells: seq<Cell<Option<YearMonth>>>)
  {
    forall i, j :: 0 <= i < j < |cells| && cells[i].month.Some? ==>
      cells[i].person != cells[j].person || cells[i].month != cells[j].month
  }

  /** The rows kept from a frame are those kept from all its rows but the last,
      then the last row if it lies in the range. */
  lemma FilterRangeLast(cells: seq<Cell<Option<YearMonth>>>, start: Date, end: Date)
    requires cells != []
    ensures FilterRange(cells, start, end) == FilterRange(cells[..|cells| - 1], start, end) +
      (if InRange(cells[|cells| - 1].month, start, end)
       then [Cell(cells[|cells| - 1].person, cells[|cells| - 1].month.value, cells[|cells| - 1].team)]
       else [])
  {
  }

  /** A kept row differs in person or month from every row kept before it. */
  lemma FilterRangeBefore(cells: seq<Cell<Option<YearMonth>>>, start: Date, end: Date)
    requires OneCellPerParsedSlot(cells) && cells != []
    ensures var c := cells[|cells| - 1];
      c.month.Some? ==> forall x :: x in FilterRange(cells[..|cells| - 1], start, end) ==>
        x.person != c.person || x.month != c.month.value
  {
    var front, c := cells[..|cells| - 1], cells[|cells| - 1];
    forall x | x in FilterRange(front, start, end) && c.month.Some?
      ensures x.person != c.person || x.month != c.month.value
    {
      var k :| 0 <= k < |front| && front[k] == Cell(x.person, Some(x.month), x.team);
      assert cells[k] == front[k];
    }
  }

  /** Appending the last row, when it lies in the range, to rows that already hold
      one row per slot and none in its slot keeps one row per slot. */
  lemma KeepOneCell(kept: seq<Cell<YearMonth>>, c: Cell<Option<YearMonth>>, start: Date, end: Date)
    requires OneCellPerSlot(kept)
    requires c.month.Some? ==> forall x :: x in kept ==> x.person != c.person || x.month != c.month.value
    ensures OneCellPerSlot(kept + (if InRange(c.month, start, end) then [Cell(c.person, c.month.value, c.team)] else []))
  {
    if InRange(c.month, start, end) {
      SnocOneCell(kept, Cell(c.person, c.month.value, c.team));
    } else {
      assert kept + [] == kept;
    }
  }

  /** The rows but the last of a frame with one row per parsed slot still have one. */
  lemma ParsedSlotPrefix(cells: seq<Cell<Option<YearMonth>>>)
    requires OneCellPerParsedSlot(cells) && cells != []
    ensures OneCellPerParsedSlot(cells[..|cells| - 1])
  {
    var front := cells[..|cells| - 1];
    assert forall k :: 0 <= k < |front| ==> front[k] == cells[k];
  }

  /** Keeping the rows inside the range keeps one row per person and parsed month. */
  lemma {:induction false} FilterRangeSlots(cells: seq<Cell<Option<YearMonth>>>, start: Date, end: Date)
    requires OneCellPerParsedSlot(cells)
    ensures OneCellPerSlot(FilterRange(cells, start, end))
    decreases |cells|
  {
    if cells != [] {
      var front := cells[..|cells| - 1];
      ParsedSlotPrefix(cells);
      FilterRangeSlots(front, start, end);
      FilterRangeBefore(cells, start, end);
      KeepOneCell(FilterRange(front, start, end), cells[|cells| - 1], start, end);
      FilterRangeLast(cells, start, end);
    }
  }

  /** With one row per person and no month that two column labels parse to, the
      records hold one record per person and month.  Labels that do not parse may
      repeat: they never yield a record. */
  lemma NormalizeOneRecord(columns: seq<Option<YearMonth>>, rows: seq<Row>, start: Date, end: Date)
    requires Rectangular(columns, rows) && OneRowPerPerson(rows)
    requires forall a, b :: 0 <= a < b < |columns| && columns[a].Some? ==> columns[a] != columns[b]
    ensures OneRecordPerMonth(Normalize(columns, rows, start, end))
  {
    var parsed := set c | c in columns && c.Some?;
    var cells := Melt(columns, rows);
    MeltSlots(columns, rows, parsed);
    assert OneCellPerParsedSlot(cells) by {
      forall i, j | 0 <= i < j < |cells| && cells[i].month.Some?
        ensures cells[i].person != cells[j].person || cells[i].month != cells[j].month
      {
        assert cells[i] in cells;
        var r, k :| 0 <= r < |rows| && 0 <= k < |columns| && cells[i] == Cell(rows[r].person, columns[k], rows[r].teams[k]);
        assert cells[i].month in parsed;
      }
    }
    FilterRangeSlots(cells, start, end);
    DropMissingSlots(FilterRange(cells, start, end));
  }

  /** Every record's month lies within the range, and so is one of the months of
      `pd.date_range(start, end, freq='MS')`: no record falls outside the categories. */
  lemma RecordsWithinRange(columns: seq<Option<YearMonth>>, rows: seq<Row>, start: Date, end: Date, r: Record<YearMonth>)
    requires Rectangular(columns, rows) && ValidDate(start) && ValidDate(end)
    requires forall c :: c in columns && c.Some? ==> ValidMonth(c.value)
    requires r in Normalize(columns, rows, start, end)
    ensures DateLeq(start, Start(r.month)) && DateLeq(Start(r.month), end)
    ensures r.month in DateRange(start, end)
  {
    NormalizeExactly(columns, rows, start, end, r);
    var i, j :| 0 <= i < |rows| && 0 <= j < |columns| &&
      rows[i].person == r.person && columns[j] == Some(r.month) && rows[i].teams[j] == Some(r.team);
    assert columns[j] in columns;
    DateRangeExactly(start, end, r.month);
  }

  /** The loop over `range(len(months) - 1)` that appends the changed joined rows of
      each pair of consecutive months to `transitions`. */
  method CollectMoves<M(==,!new)>(records: seq<Record<M>>, months: seq<M>) returns (transitions: seq<Move>)
    ensures transitions == AllMoves(records, months)
  {
    transitions := [];
    var i := 0;
    while i < |months| - 1
      invariant 0 <= i <= if |months| < 2 then 0 else |months| - 1
      invariant transitions == if |months| == 0 then [] else AllMoves(records, months[..i + 1])
    {
      var monthFrom, monthTo := months[i], months[i + 1];
      var dfFrom, dfTo := AtMonth(records, monthFrom), AtMonth(records, monthTo);
      var merged := Changes(Join(dfFrom, dfTo));
      assert months[..i + 2][..i + 1] == months[..i + 1];
      transitions := transitions + merged;
      i := i + 1;
    }
    if |months| >= 1 {
      assert months[..i + 1] == months;
    }
  }

  /** The grouped frame `transition_agg`. */
  function Aggregate<M(==,!new)>(records: seq<Record<M>>, months: seq<M>): seq<Edge>
  {
    Group(Tagged(AllMoves(records, months)))
  }

  /** `transition_agg` holds each key once, in key order; an edge's count (`size`) is
      the number of team changes with its key over all pairs of consecutive months,
      its people are the persons of those changes in order, repeats included, so the
      count is the number of names; there is no self-loop and every count is at
      least one; and a key has an edge exactly when such a change happened. */
  lemma AggregateSpec<M(!new)>(records: seq<Record<M>>, months: seq<M>, k: (string, string))
    ensures Sorted(Aggregate(records, months))
    ensures forall e :: e in Aggregate(records, months) ==> Proper(e) && Attributed(e)
    ensures forall i :: 0 <= i < |Aggregate(records, months)| ==>
      var e := Aggregate(records, months)[i];
      e.count == CountMoves(AllMoves(records, months), Key(e)) &&
      e.people == Movers(AllMoves(records, months), Key(e))
    ensures (exists i :: 0 <= i < |Aggregate(records, months)| && Key(Aggregate(records, months)[i]) == k) <==>
      CountMoves(AllMoves(records, months), k) > 0
  {
    var moves := AllMoves(records, months);
    var rows := Tagged(moves);
    var agg := Aggregate(records, months);
    forall mv | mv in moves
      ensures mv.from != mv.to
    {
      NoSelfMoves(records, months, mv);
    }
    TaggedSpec(moves, k);
    GroupKeeps(rows);
    GroupSpec(rows, k);
    forall i | 0 <= i < |agg|
      ensures agg[i].count == CountMoves(moves, Key(agg[i])) && agg[i].people == Movers(moves, Key(agg[i]))
    {
      GroupSpec(rows, Key(agg[i]));
      TaggedSpec(moves, Key(agg[i]));
      SortedEdge(agg, i);
    }
    if Weight(agg, k) > 0 {
      WeightPositive(agg, k);
    }
    if exists i :: 0 <= i < |agg| && Key(agg[i]) == k {
      var i :| 0 <= i < |agg| && Key(agg[i]) == k;
      SortedEdge(agg, i);
      assert agg[i] in agg;
    }
  }

  /** With one record per person and month, an edge's count (`size`) is the number
      of people who made its change, summed over the pairs of consecutive months. */
  lemma AggregateCountChangers<M(!new)>(records: seq<Record<M>>, months: seq<M>)
    requires OneRecordPerMonth(records)
    ensures forall i :: 0 <= i < |Aggregate(records, months)| ==>
      Aggregate(records, months)[i].count == ChangeCount(records, months, Key(Aggregate(records, months)[i]))
  {
    var agg := Aggregate(records, months);
    AggregateSpec(records, months, ("", ""));
    forall i | 0 <= i < |agg|
      ensures agg[i].count == ChangeCount(records, months, Key(agg[i]))
    {
      AllMovesCount(records, months, Key(agg[i]));
    }
  }

  /** With one record per person and month, the drawn diagram weighs each link by the
      number of people who left its source team for its target team between two
      consecutive month starts, summed over the range; the sort by person changes
      none of these weights. */
  lemma DiagramCounts<M(!new)>(records: seq<Record<M>>, months: seq<M>)
    requires OneRecordPerMonth(records)
    ensures var d := Draw(Aggregate(SortByPerson(records), months));
      forall l :: l in d.links ==>
        && l.source < |d.labels| && l.target < |d.labels|
        && l.value == ChangeCount(records, months, (d.labels[l.source], d.labels[l.target]))
  {
    var sorted := SortByPerson(records);
    var agg := Aggregate(sorted, months);
    var d := Draw(agg);
    SortKeepsOneRecord(records);
    AggregateCountChangers(sorted, months);
    DrawSpec(agg);
    forall l | l in d.links
      ensures l.source < |d.labels| && l.target < |d.labels|
      ensures l.value == ChangeCount(records, months, (d.labels[l.source], d.labels[l.target]))
    {
      var i :| 0 <= i < |d.links| && d.links[i] == l;
      SortedChangeCount(records, months, Key(agg[i]));
    }
  }

  /** The whole script for the range `[start, end]` on a wide table whose month
      columns parse to `columns`: it raises exactly when the range holds fewer than
      two month starts; otherwise the diagram has distinct labels and one link per
      team pair that anyone moved along, with distinct in-range endpoints, a
      positive weight and as many hover names as its weight. */
  method Run(columns: seq<Option<YearMonth>>, rows: seq<Row>, start: Date, end: Date)
    returns (result: Result<Diagram, Error>)
    requires Rectangular(columns, rows) && ValidDate(start) && ValidDate(end)
    ensures result.Failure? <==> |DateRange(start, end)| < 2
    ensures result.Success? ==>
      result.value == Draw(Aggregate(SortByPerson(Normalize(columns, rows, start, end)), DateRange(start, end)))
    ensures result.Success? ==> NoDup(result.value.labels)
    ensures result.Success? ==> forall l :: l in result.value.links ==>
      && l.source < |result.value.labels| && l.target < |result.value.labels|
      && l.source != l.target && l.value >= 1 && l.value == |l.people|
    ensures result.Success? && OneRecordPerMonth(Normalize(columns, rows, start, end)) ==>
      forall l :: l in result.value.links ==>
        && l.source < |result.value.labels| && l.target < |result.value.labels|
        && l.value == ChangeCount(Normalize(columns, rows, start, end), DateRange(start, end),
             (result.value.labels[l.source], result.value.labels[l.target]))
  {
    var records := Normalize(columns, rows, start, end);
    var months := DateRange(start, end);
    if OneRecordPerMonth(records) {
      DiagramCounts(records, months);
    }
    records := SortByPerson(records);
    var transitions := CollectMoves(records, months);
    if |months| < 2 {
      return Failure(NoObjectsToConcatenate);
    }
    var agg := Group(Tagged(transitions));
    var d := Draw(agg);
    AggregateSpec(records, months, ("", ""));
    DrawSpec(agg);
    forall l | l in d.links
      ensures && l.source < |d.labels| && l.target < |d.labels|
              && l.source != l.target && l.value >= 1 && l.value == |l.people|
    {
      var i :| 0 <= i < |d.links| && d.links[i] == l;
      assert agg[i] in agg;
    }
    result := Success(d);
  }
}
