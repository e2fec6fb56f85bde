/**
 * The wide person-by-month table and its long form.  `DataFrame.melt` turns every
 * (row, month column) cell into one long row, and `dropna(subset=["Team"])` removes
 * the long rows whose team is missing; what is left are the assignment records.
 */
module Table {
  import opened Wrappers

  /** One row of the wide table: a person and one team cell per month column
      (`None` is a missing cell, NaN in the frame). */
  datatype Row = Row(person: string, teams: seq<Option<string>>)

  /** One row of the melted frame: columns `Person`, `Month`, `Team`. */
  datatype Cell<L> = Cell(person: string, month: L, team: Option<string>)

  /** An assignment record: a melted row whose team is present. */
  datatype Record<M> = Record(person: string, month: M, team: string)

  /** Every row has one cell per month column, as in any data frame. */
  predicate Rectangular<L>(columns: seq<L>, rows: seq<Row>)
  {
    forall i :: 0 <= i < |rows| ==> |rows[i].teams| == |columns|
  }

  /** The melted rows of month column `j`, in row order. */
  function Column<L>(columns: seq<L>, rows: seq<Row>, j: nat): (cells: seq<Cell<L>>)
    requires Rectangular(columns, rows) && j < |columns|
    ensures |cells| == |rows|
    ensures forall i :: 0 <= i < |rows| ==>
      cells[i] == Cell(rows[i].person, columns[j], rows[i].teams[j])
  {
    seq(|rows|, i requires 0 <= i < |rows| => Cell(rows[i].person, columns[j], rows[i].teams[j]))
  }

  /** The first `k` month columns melted one after the other. */
  function MeltColumns<L(!new)>(columns: seq<L>, rows: seq<Row>, k: nat): (cells: seq<Cell<L>>)
    requires Rectangular(columns, rows) && k <= |columns|
    ensures |cells| == k * |rows|
    ensures forall c :: c in cells <==>
      exists i, j :: 0 <= i < |rows| && 0 <= j < k &&
        c == Cell(rows[i].person, columns[j], rows[i].teams[j])
  {
    if k == 0 then []
    else
      var front := MeltColumns(columns, rows, k - 1);
      var last := Column(columns, rows, k - 1);
      assert forall c :: c in last <==>
        exists i :: 0 <= i < |rows| && c == Cell(rows[i].person, columns[k - 1], rows[i].teams[k - 1]);
      front + last
  }

  /** The position of the cell of row `i` and column `j` in a melted frame whose
      columns hold `n` cells each. */
  function Offset(n: nat, i: nat, j: nat): nat
  {
    j * n + i
  }

  /** Cell `i` of column `j < k` lies within the first `k` columns. */
  lemma OffsetBound(n: nat, k: nat, i: nat, j: nat)
    requires i < n && j < k
    ensures Offset(n, i, j) < k * n
  {
    assert (j + 1) * n <= k * n;
  }

  /** The long row at `Offset(|rows|, i, j)` is the cell of row `i` and column `j`. */
  lemma {:induction false} MeltColumnsAt<L(!new)>(columns: seq<L>, rows: seq<Row>, k: nat, i: nat, j: nat)
    requires Rectangular(columns, rows) && k <= |columns| && i < |rows| && j < k
    ensures Offset(|rows|, i, j) < k * |rows|
    ensures MeltColumns(columns, rows, k)[Offset(|rows|, i, j)] == Cell(rows[i].person, columns[j], rows[i].teams[j])
    decreases k
  {
    var n := |rows|;
    var front, last := MeltColumns(columns, rows, k - 1), Column(columns, rows, k - 1);
    assert MeltColumns(columns, rows, k) == front + last;
    OffsetBound(n, k, i, j);
    var p := Offset(n, i, j);
    if j < k - 1 {
      MeltColumnsAt(columns, rows, k - 1, i, j);
      OffsetBound(n, k - 1, i, j);
      assert (front + last)[p] == front[p];
    } else {
      assert p == |front| + i;
      assert (front + last)[p] == last[i];
    }
  }

  /** Every cell of the wide table sits at its own offset of the melted frame. */
  lemma MeltPositions<L(!new)>(columns: seq<L>, rows: seq<Row>)
    requires Rectangular(columns, rows)
    ensures forall i, j :: 0 <= i < |rows| && 0 <= j < |columns| ==>
      Offset(|rows|, i, j) < |columns| * |rows| &&
      MeltColumns(columns, rows, |columns|)[Offset(|rows|, i, j)] == Cell(rows[i].person, columns[j], rows[i].teams[j])
  {
    forall i, j | 0 <= i < |rows| && 0 <= j < |columns|
      ensures Offset(|rows|, i, j) < |columns| * |rows| &&
        MeltColumns(columns, rows, |columns|)[Offset(|rows|, i, j)] == Cell(rows[i].person, columns[j], rows[i].teams[j])
    {
      MeltColumnsAt(columns, rows, |columns|, i, j);
    }
  }

  /** `data.melt(id_vars=["Person", ...], var_name="Month", value_name="Team")`:
      one long row per cell of the wide table. */
  function Melt<L(!new)>(columns: seq<L>, rows: seq<Row>): (cells: seq<Cell<L>>)
    requires Rectangular(columns, rows)
    ensures |cells| == |columns| * |rows|
    ensures forall i, j :: 0 <= i < |rows| && 0 <= j < |columns| ==>
      Offset(|rows|, i, j) < |cells| && cells[Offset(|rows|, i, j)] == Cell(rows[i].person, columns[j], rows[i].teams[j])
    ensures forall c :: c in cells <==>
      exists i, j :: 0 <= i < |rows| && 0 <= j < |columns| &&
        c == Cell(rows[i].person, columns[j], rows[i].teams[j])
  {
    MeltPositions(columns, rows);
    MeltColumns(columns, rows, |columns|)
  }

  /** `dropna(subset=["Team"])`: keep the long rows whose team is present, in order. */
  function DropMissing<L(!new)>(cells: seq<Cell<L>>): (records: seq<Record<L>>)
    ensures |records| <= |cells|
    ensures forall r :: r in records <==> Cell(r.person, r.month, Some(r.team)) in cells
    ensures forall r :: multiset(records)[r] == multiset(cells)[Cell(r.person, r.month, Some(r.team))]
  {
    if cells == [] then []
    else
      var front := DropMissing(cells[..|cells| - 1]);
      var c := cells[|cells| - 1];
      assert cells == cells[..|cells| - 1] + [c];
      match c.team
      case None => front
      case Some(t) => front + [Record(c.person, c.month, t)]
  }

  /** A record stands for exactly one present cell of the wide table: missing cells
      never become records, and every present cell does. */
  lemma NormalizedRecords<L(!new)>(columns: seq<L>, rows: seq<Row>, r: Record<L>)
    requires Rectangular(columns, rows)
    ensures r in DropMissing(Melt(columns, rows)) <==>
      exists i, j :: 0 <= i < |rows| && 0 <= j < |columns| &&
        rows[i].person == r.person && columns[j] == r.month && rows[i].teams[j] == Some(r.team)
  {
    var cells := Melt(columns, rows);
    if r in DropMissing(cells) {
      assert Cell(r.person, r.month, Some(r.team)) in cells;
    }
    if exists i, j :: 0 <= i < |rows| && 0 <= j < |columns| &&
        rows[i].person == r.person && columns[j] == r.month && rows[i].teams[j] == Some(r.team) {
      var i, j :| 0 <= i < |rows| && 0 <= j < |columns| &&
        rows[i].person == r.person && columns[j] == r.month && rows[i].teams[j] == Some(r.team);
      assert Cell(rows[i].person, columns[j], rows[i].teams[j]) in cells;
    }
  }

  /** No two records share a person and a month. */
  predicate OneRecordPerMonth<M(==)>(records: seq<Record<M>>)
  {
    forall i, j :: 0 <= i < j < |records| ==>
      records[i].person != records[j].person || records[i].month != records[j].month
  }

  /** No two long rows share a person and a month. */
  predicate OneCellPerSlot<L(==)>(cells: seq<Cell<L>>)
  {
    forall i, j :: 0 <= i < j < |cells| ==>
      cells[i].person != cells[j].person || cells[i].month != cells[j].month
  }

  /** No two long rows share a person and a month of `ms`. */
  predicate OneCellPerSlotIn<L(==)>(cells: seq<Cell<L>>, ms: set<L>)
  {
    forall i, j :: 0 <= i < j < |cells| && cells[i].month in ms ==>
      cells[i].person != cells[j].person || cells[i].month != cells[j].month
  }

  /** Each person has one row of the wide table. */
  predicate OneRowPerPerson(rows: seq<Row>)
  {
    forall a, b :: 0 <= a < b < |rows| ==> rows[a].person != rows[b].person
  }

  /** No month of `ms` labels two columns. */
  predicate LabelsDistinctIn<L(==)>(columns: seq<L>, ms: set<L>)
  {
    forall a, b :: 0 <= a < b < |columns| && columns[a] in ms ==> columns[a] != columns[b]
  }

  /** With one row per person and no month of `ms` labelling two columns, the long
      rows of the first `k` columns hold each person at most once per month of `ms`. */
  lemma {:induction false} MeltColumnsSlots<L(!new)>(columns: seq<L>, rows: seq<Row>, k: nat, ms: set<L>)
    requires Rectangular(columns, rows) && k <= |columns|
    requires OneRowPerPerson(rows) && LabelsDistinctIn(columns, ms)
    ensures OneCellPerSlotIn(MeltColumns(columns, rows, k), ms)
    decreases k
  {
    if k > 0 {
      var front, last := MeltColumns(columns, rows, k - 1), Column(columns, rows, k - 1);
      var cells := MeltColumns(columns, rows, k);
      assert cells == front + last;
      MeltColumnsSlots(columns, rows, k - 1, ms);
      var f := |front|;
      forall a, b | 0 <= a < b < |cells| && cells[a].month in ms
        ensures cells[a].person != cells[b].person || cells[a].month != cells[b].month
      {
        if b < f {
          assert cells[a] == front[a] && cells[b] == front[b];
        } else if a >= f {
          assert cells[a] == last[a - f] && cells[b] == last[b - f];
        } else {
          assert cells[a] == front[a] && cells[b] == last[b - f];
          assert front[a] in front;
          var i, j :| 0 <= i < |rows| && 0 <= j < k - 1 &&
            front[a] == Cell(rows[i].person, columns[j], rows[i].teams[j]);
          assert columns[j] != columns[k - 1];
        }
      }
    }
  }

  /** With one row per person and no month of `ms` labelling two columns, the melted
      frame holds each person at most once per month of `ms`. */
  lemma MeltSlots<L(!new)>(columns: seq<L>, rows: seq<Row>, ms: set<L>)
    requires Rectangular(columns, rows)
    requires OneRowPerPerson(rows) && LabelsDistinctIn(columns, ms)
    ensures OneCellPerSlotIn(Melt(columns, rows), ms)
  {
    MeltColumnsSlots(columns, rows, |columns|, ms);
  }

  /** The records of a frame are those of all its rows but the last, then the last
      row's record if its team is present. */
  lemma DropMissingLast<L(!new)>(cells: seq<Cell<L>>)
    requires cells != []
    ensures DropMissing(cells) == DropMissing(cells[..|cells| - 1]) +
      (if cells[|cells| - 1].team.Some? then [Record(cells[|cells| - 1].person, cells[|cells| - 1].month, cells[|cells| - 1].team.value)] else [])
  {
  }

  /** The last row differs in person or month from every record kept before it. */
  lemma DropMissingBefore<L(!new)>(cells: seq<Cell<L>>)
    requires OneCellPerSlot(cells) && cells != []
    ensures var c := cells[|cells| - 1];
      forall x :: x in DropMissing(cells[..|cells| - 1]) ==> x.person != c.person || x.month != c.month
  {
    var front, c := cells[..|cells| - 1], cells[|cells| - 1];
    forall x | x in DropMissing(front)
      ensures x.person != c.person || x.month != c.month
    {
      var k :| 0 <= k < |front| && front[k] == Cell(x.person, x.month, Some(x.team));
      assert cells[k] == front[k];
    }
  }

  /** Dropping the rows without a team keeps one record per person and month. */
  lemma {:induction false} DropMissingSlots<L(!new)>(cells: seq<Cell<L>>)
    requires OneCellPerSlot(cells)
    ensures OneRecordPerMonth(DropMissing(cells))
    decreases |cells|
  {
    if cells != [] {
      var n := |cells|;
      var front, c := cells[..n - 1], cells[n - 1];
      assert OneCellPerSlot(front) by {
        assert forall k :: 0 <= k < |front| ==> front[k] == cells[k];
      }
      DropMissingSlots(front);
      DropMissingLast(cells);
      var kept := DropMissing(front);
      if c.team.Some? {
        DropMissingBefore(cells);
        SnocOneRecord(kept, Record(c.person, c.month, c.team.value));
      }
    }
  }

  /** A record whose person and month no earlier record has keeps one record per
      person and month. */
  lemma SnocOneRecord<M>(records: seq<Record<M>>, r: Record<M>)
    requires OneRecordPerMonth(records)
    requires forall x :: x in records ==> x.person != r.person || x.month != r.month
    ensures OneRecordPerMonth(records + [r])
  {
    assert forall i :: 0 <= i < |records| ==> records[i] in records;
  }

  /** A long row whose person and month no earlier row has keeps one row per person
      and month. */
  lemma SnocOneCell<L>(cells: seq<Cell<L>>, c: Cell<L>)
    requires OneCellPerSlot(cells)
    requires forall x :: x in cells ==> x.person != c.person || x.month != c.month
    ensures OneCellPerSlot(cells + [c])
  {
    assert forall i :: 0 <= i < |cells| ==> cells[i] in cells;
  }
}
