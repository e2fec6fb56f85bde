# pysankey: team-transition extraction, modelled in Dafny

pysankey is two Python scripts that turn a person-by-month table of team
assignments into the weighted team-to-team links of a Sankey diagram.
`sankey.py` reads the table and uses a fixed list of ten month labels, `May` to `Feb`.
`sankey_sheets_hex.py` reads the table from a spreadsheet.
It parses the month labels as `"%B %Y"`, keeps the months inside a `[start, end]` range, and takes the months from `pd.date_range(start, end, freq='MS')`.
Both scripts share the same pipeline, which this project models over sequences of records:

1. **Normalise.** `melt` turns the wide table into `(Person, Month, Team)` rows; `dropna` removes the rows without a team (modules `Table`, `SankeySheets`).
2. **Sort.** `sort_values(by=["Person", "Month"])` orders the records (module `Sorting`).
3. **Extract transitions.** For every pair of consecutive months, the two months' frames are inner-joined on `Person`, and only the rows whose team changed are kept (module `Moves`; loop methods `Sankey.CollectPairCounts` and `SankeySheets.CollectMoves`).
4. **Aggregate.** The changes are grouped by `(Team_from, Team_to)`, and groups come out in key order.
   - `sankey.py` counts each month pair with `value_counts` and sums the per-pair counts.
   - `sankey_sheets_hex.py` counts with `size` and lists the people of each group.

   The grouping is in module `Groups`; the key order, Python's string and tuple ordering, is in module `Lex`.
5. **Index labels.** The label list is the distinct teams, sources first, in first-seen order. Each label maps to its position, and each aggregated row becomes a link between two indices (module `Labels`).

The month sequence of the range-based script (`pd.date_range`, `YYYY-MM` keys) is in module `Calendar`.
`Sankey.Run` and `SankeySheets.Run` put each script's steps together and state what its diagram satisfies.

The scripts behave as follows in these edge cases:
- **Fewer than two months.** With fewer than two months in the range, `transitions` stays empty and `pd.concat([])` raises. The model returns `Failure(NoObjectsToConcatenate)`; it does not return an empty graph.
- **Empty strings.** `dropna` removes only missing values (NaN). A cell that holds an empty string is kept as a team named `""`; in the model that is `Some("")`.
- **Unparsable labels.** An unparsable month label becomes NaT and is dropped without notice by the range comparisons. It does not raise a malformed-label condition.
- **One record per person and month.** Nothing in the scripts enforces it. If a person has several records in one month, the merge pairs each earlier record with each later record of that person. `Moves.PairMovesCount` states this multiplicity.
  - No pipeline member assumes one record per person and month: `Sankey.Run`, `Sankey.Totals`, `SankeySheets.Run` and `SankeySheets.Aggregate` are defined and specified for any records.
  - Some lemmas do assume it: `Moves.AtMonthDistinct`, `Moves.PairMovesDistinct`, `Moves.PairCountIsChangers`, `Moves.AllMovesCount`, `Sorting.SlotsDiffer`, `Sorting.PermutationKeepsOneRecord`, `Sorting.SortKeepsOneRecord`, `Sankey.TotalsCountChangers`, `Sankey.DiagramCounts`, `SankeySheets.AggregateCountChangers` and `SankeySheets.DiagramCounts`.
  - `Sankey.NormalizeOneRecord` and `SankeySheets.NormalizeOneRecord` derive it from the wide table: one row per person and no month label given twice. In the spreadsheet, two different headers can parse to the same month, so there the condition is on the parsed months.
  - Under this assumption, each link's weight is the number of people who made its change, summed over the pairs of consecutive months. Both `Run` methods state this, conditional on the assumption.

## Model

| member | source | states |
|---|---|---|
| Table.Melt | sankey.py:8-11 | the long frame has one row per (row, month column) cell: its length is columns × rows, and a row is in it exactly when it is some cell's person, month label and team. It is column by column: the cell of wide row `i` and month column `j` is long row `j * len(rows) + i` |
| Table.MeltColumnsAt | sankey.py:8-11 | the cell of wide row `i` and month column `j` lies at position `j * len(rows) + i` of the long frame, which is within its length |
| Table.MeltSlots | sankey.py:8-11 | with one wide row per person and no month of a given set labelling two columns, the long frame holds at most one row per person and month of that set |
| Table.DropMissing | sankey.py:13-14 | a record is kept exactly when its cell has a team present; no more records than cells. Each record occurs exactly as often as its cell, with the team present, occurs in the long frame |
| Table.DropMissingSlots | sankey.py:13-14 | when the long frame holds at most one row per person and month, so do the records left after dropping the missing cells |
| Table.NormalizedRecords | sankey.py:8-14 | a record exists exactly when some row of the wide table has that person and, in the column with that label, that team; a missing cell never yields a record |
| Sankey.NormalizeOneRecord | sankey.py:8-14 | with one wide row per person and no repeated month label, the normalised records hold one record per person and month |
| Sorting.SortByPerson | sankey_sheets_hex.py:60 | the sorted records are a permutation of the records (same length, same multiset) |
| Sorting.SortByPersonSorted | sankey_sheets_hex.py:60 | the sorted records are in person order under Python's string ordering |
| Sorting.InsertSorted | sankey_sheets_hex.py:60 | inserting a record into person-ordered records keeps them in person order |
| Sorting.SortByPersonMembers | sankey.py:21 | the sort keeps exactly the records it was given |
| Sorting.InsertStable | sankey_sheets_hex.py:60 | inserting a record puts it after every record of the same person, and leaves those records in their order |
| Sorting.SortByPersonStable | sankey_sheets_hex.py:60 | the sort is stable: the records of one person come out in the order they went in |
| Sorting.SortKeepsOneRecord | sankey.py:21 | if there was at most one record per person and month before the sort, there still is after it |
| Sorting.PermutationKeepsOneRecord | sankey.py:21 | any reordering of the records keeps at most one record per person and month |
| Sorting.SortedChangeCount | sankey.py:21 | sorting does not change, for any key and any months, how many people made that change |
| Sorting.SortedMoves | sankey_sheets_hex.py:60-73 | sorting changes only the order of the extracted moves, never which moves there are |
| Moves.AtMonth | sankey.py:29-30 | a month's frame holds exactly the records of that month |
| Moves.Join | sankey.py:31 | the inner join on `Person` yields exactly the (from-team, to-team) rows of a person who has a record in both frames |
| Moves.Changes | sankey.py:32-33 | a joined row is kept exactly when its two teams differ |
| Moves.PairMovesExactly | sankey.py:29-33 | a move between two months is exactly a person who has a record in both months with different teams; anyone absent from either month takes no part |
| Moves.AllMovesExactly | sankey.py:25-33 | over the timeline, a move is exactly a team change of one person between two months that are consecutive in the month sequence |
| Moves.NoSelfMoves | sankey.py:32-33 | no move has `Team_from == Team_to` |
| Moves.PairMovesDistinct | sankey.py:31 | with one record per person and month, each person appears at most once among one pair's moves |
| Moves.AtMonthDistinct | sankey.py:29-30 | with one record per person and month, a month's frame lists each person once |
| Moves.JoinDistinct | sankey.py:31 | joining two frames that list each person once yields each person at most once |
| Moves.ChangesDistinct | sankey.py:32-33 | filtering the changed rows keeps the persons distinct |
| Moves.HoldingAtMonth | sankey.py:29-30 | a month's frame holds a (person, team) record as many times as the records hold it for that month |
| Moves.MatchesCount | sankey.py:31 | one earlier record forms a joined row once per later record of the same person and the row's target team |
| Moves.JoinCount | sankey.py:31 | the merge yields each (person, from-team, to-team) row as many times as the product of the matching earlier and later record counts |
| Moves.ChangesCount | sankey.py:32-33 | the filter keeps every copy of a changed row and no copy of an unchanged one |
| Moves.PairMovesCount | sankey.py:29-33 | a change occurs among one pair's moves once per pair of an earlier record (person, source team) and a later record (person, target team); a row without a change never occurs |
| Moves.CountDistinct | sankey.py:34-35 | when a list of moves names each person once, a key's count is the number of people it names for that key |
| Moves.PairCountIsChangers | sankey.py:29-35 | with one record per person and month, a pair's count for a key is the number of people who left the source team in the earlier month for the target team in the later month |
| Moves.AllMovesCount | sankey.py:25-38 | with one record per person and month, a key's number of moves over the timeline is that number of people, summed over the pairs of consecutive months |
| Lex.StrLessIrreflexive | sankey.py:38-39 | no string sorts before itself |
| Lex.StrLessTrichotomy | sankey.py:38-39 | two distinct strings are ordered one way, and never both ways |
| Lex.StrLessTransitive | sankey.py:38-39 | string ordering is transitive |
| Lex.PairLessTotal | sankey.py:38-39 | the ordering of `(Team_from, Team_to)` keys is irreflexive, asymmetric and total |
| Lex.PairLessTransitive | sankey.py:38-39 | the key ordering is transitive |
| Groups.AddMembers | sankey.py:38-39 | folding one row into the groups adds either the row itself or the row merged into the group of its key |
| Groups.AddWeight | sankey.py:38-39 | folding in one row adds its count to its own key's total, and leaves every other key's total unchanged |
| Groups.GroupSpec | sankey.py:38-39 | `groupby` gives keys in strictly increasing order, so each key appears once. Each key's total is the sum of its rows' counts, and its people are its rows' people in row order |
| Groups.SortedEdge | sankey.py:38-39 | in the grouped list, the total and the people of an edge's key are those of that edge |
| Groups.GroupKeeps | sankey_sheets_hex.py:79-82 | grouping keeps "no self-loop, count at least one" and "count equals the number of names" when every row has them |
| Groups.UnitsSpec | sankey.py:34-35 | counting the moves as unit rows gives each key its number of moves |
| Groups.TaggedSpec | sankey_sheets_hex.py:73-82 | tagged rows give each key its number of moves and its movers in order; every row has count 1 and one name |
| Groups.StackMembers | sankey.py:38 | a row of `pd.concat(tables)` comes from one of the tables |
| Groups.WeightConcat | sankey.py:38 | totals and people of stacked rows add up table by table |
| Moves.CountMovesConcat | sankey.py:38 | move counts and movers of concatenated move lists add up |
| Groups.WeightPositive | sankey.py:38-39 | a key with a positive total has a row |
| Labels.Unique | sankey.py:47 | `unique()` has no duplicates and holds exactly the values of its input |
| Labels.UniqueFirstSeen | sankey.py:47 | the distinct values are listed in order of first appearance |
| Labels.IndexMap | sankey.py:50 | the dict has exactly the labels as keys, and maps each to a position that holds that label |
| Labels.IndexMapBijective | sankey.py:50 | for distinct labels, the dict maps label `i` to `i` and is injective: a bijection onto `0..len(labels)-1` |
| Labels.NodeLabelsSpec | sankey.py:42-47 | the labels are distinct and are exactly the teams named by the edges |
| Labels.DrawSpec | sankey.py:42-52 | labels are distinct and exactly the edges' teams. Link `i` has in-range indices that name edge `i`'s teams, and carries its count and people. A proper edge gives `source != target` and `value >= 1` |
| Calendar.Next | sankey_sheets_hex.py:57-58 | the next month is one month later, and December rolls over to January of the next year |
| Calendar.FirstStart | sankey_sheets_hex.py:57-58 | the range starts at the earliest month start on or after `start` |
| Calendar.MonthsFromSpec | sankey_sheets_hex.py:57-58 | the month sequence has the right length. Entry `i` is `i` months after the first, and each entry is followed by its successor month |
| Calendar.DateRangeIncreasing | sankey_sheets_hex.py:57-58 | the month sequence strictly increases, so it has no duplicates |
| Calendar.DateRangeExactly | sankey_sheets_hex.py:45-59 | a month is in the sequence exactly when its first day lies within `[start, end]` |
| SankeySheets.FilterRange | sankey_sheets_hex.py:44-49 | a row is kept exactly when its label parsed and its month start lies within `[start, end]`; NaT fails both comparisons. A kept row occurs exactly as often as its unfiltered row, and a row outside the range never |
| SankeySheets.FilterRangeSlots | sankey_sheets_hex.py:44-49 | filtering a long frame with at most one row per person and parsed month leaves at most one row per person and month |
| SankeySheets.NormalizeOneRecord | sankey_sheets_hex.py:35-52 | with one wide row per person and no month that two column labels parse to, the normalised records hold one record per person and month; labels that do not parse may repeat |
| SankeySheets.NormalizeExactly | sankey_sheets_hex.py:35-52 | a record is exactly a present cell whose column label parsed to a month inside the range |
| SankeySheets.RecordsWithinRange | sankey_sheets_hex.py:44-59 | every record's month lies in `[start, end]` and is one of the months of `pd.date_range` |
| SankeySheets.CollectMoves | sankey_sheets_hex.py:62-73 | the loop's stacked rows are exactly the changed joined rows of every consecutive month pair, pair by pair |
| SankeySheets.AggregateSpec | sankey_sheets_hex.py:75-82 | each key appears once, in key order, with count equal to its number of moves and people equal to its movers. The count equals the number of names, with no self-loop and a count of at least one; a key appears exactly when some move has it |
| SankeySheets.AggregateCountChangers | sankey_sheets_hex.py:62-82 | with one record per person and month, a group's `size` is the number of people who made its change, summed over the pairs of consecutive months |
| SankeySheets.DiagramCounts | sankey_sheets_hex.py:60-96 | with one record per person and month, each link of the drawn diagram weighs the number of people who moved from its source label to its target label, summed over the range's consecutive month pairs, counted on the unsorted records |
| SankeySheets.Run | sankey_sheets_hex.py:35-96 | the script raises exactly when the range has fewer than two months. Otherwise the diagram has distinct labels, and every link has in-range distinct endpoints, a positive weight and as many names as its weight. With one record per person and month, every link's weight is the number of people who made its change, summed over consecutive month pairs |
| Sankey.PairTables | sankey.py:24-35 | there is one count table per pair of consecutive months |
| Sankey.PairTablesAt | sankey.py:26-35 | table `i` counts the changes between month `i` and month `i + 1` |
| Sankey.CollectPairCounts | sankey.py:24-35 | the loop appends exactly the per-pair count tables, in month order |
| Sankey.StackedCounts | sankey.py:37-39 | summing the stacked per-pair counts of a key gives its number of team changes over the whole timeline |
| Sankey.PairCountsProper | sankey.py:32-35 | each per-pair count row has distinct teams and a count of at least one |
| Sankey.StackedProper | sankey.py:37-38 | each stacked count row has distinct teams and a count of at least one |
| Sankey.TotalsSpec | sankey.py:37-39 | each key appears once, in key order, with count equal to its number of team changes, no self-loop and a count of at least one; a key appears exactly when a change has it |
| Sankey.TotalsCountChangers | sankey.py:24-39 | with one record per person and month, an edge's total is the number of people who made its change, summed over the pairs of consecutive months |
| Sankey.DiagramCounts | sankey.py:21-52 | with one record per person and month, each link of the drawn diagram weighs the number of people who moved from its source label to its target label, summed over consecutive month pairs, counted on the unsorted records |
| Sankey.Run | sankey.py:8-52 | the diagram is drawn from the totals of the sorted records over the fixed months; its labels are distinct, and every link has in-range distinct endpoints and a positive weight. With one record per person and month, every link's weight is the number of people who made its change, summed over consecutive month pairs |
| Scenarios.GapIsNoMove | sankey_sheets_hex.py:64-70 | a person in X in May, absent in June and in Y in July makes no move: May and July are never compared |

## Left out

- Reading the table is not modelled. That covers the TSV file (`sankey.py:5-6`) and the spreadsheet: its credentials, environment variables and `get_all_records` (`sankey_sheets_hex.py:10-30`). These are file and network I/O; the model starts from the wide table as a value.
- The `Ladder` and `Platform / Role` columns are not modelled (`sankey.py:9`, `sankey_sheets_hex.py:33`). They are excluded from the melt or dropped, and carry no logic; a row holds only the person and the month cells.
- Building, laying out and showing the Plotly figure is not modelled (`sankey.py:54-74`, `sankey_sheets_hex.py:98-113`). The model stops at the labels and links handed to it.
- The title, clock and timezone formatting is not modelled (`sankey_sheets_hex.py:115-136`). It depends on the wall clock.
- `pd.to_datetime(format="%B %Y", errors='coerce')` and `strftime('%Y-%m')` are not modelled. A month column label is given already parsed, as `Option<YearMonth>` (`None` is NaT). A year-month pair is its own `YYYY-MM` key.
- `daterange_start` and `daterange_end` are read at `sankey_sheets_hex.py:45` before any assignment; lines 46-47 only convert them to datetimes. The model takes them as parameters. A `date` value is always true, so the guard `if daterange_start and daterange_end` is always taken.
- Calendar.ValidDate: checks the day only as 1 to 31, not against the month's length. Only first-of-month days and comparisons are used.
- Timestamp bounds (years 1677 to 2262) are not modelled. Years are unbounded.
- `pd.Categorical` is not modelled as a conversion in `sankey.py`. A label outside the ten fixed months becomes a missing category and equals none of them. The model compares the raw labels with the fixed list, which selects the same rows.
- Sorting.SortByPerson: sorts by `Person` only, not by `(Person, Month)`. Each frame the loop takes out holds one month, so the month part of the key orders nothing inside a frame. The sort is stable (`Sorting.SortByPersonStable`), so records of one person keep their order, and with them the records of one person in one month.
- A missing `Person` (NaN) is not a value of the model: a person is a string. pandas `merge` matches NaN keys with each other, so a missing person behaves like one fixed string, such as `""`, that joins with itself; the model represents it that way.
- The count-descending order of `value_counts` is not modelled. The following `groupby` re-sorts by key, so it never reaches the result.
- SankeySheets.AggregateSpec: states each group's people as a list of names. The `', '.join` into one hover string is not modelled; it is formatting.
- No lemma evaluates the pipeline on a literal table, such as two people over two months with one move. `Moves.AllMovesExactly`, `Sankey.TotalsSpec` and `SankeySheets.AggregateSpec` state the general rule for every table. `Scenarios.GapIsNoMove` states the case of a month without a record.
