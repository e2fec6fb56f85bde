/**
 * A timeline with a gap, checked against the model (months numbered 5 = May,
 * 6 = June, 7 = July).
 */
module Scenarios {
  import opened Table
  import opened Moves

  const A5 := Record("Alice", 5, "X")

  /** Alice is in X in May and in Y in July but absent in June: May and July are not
      consecutive, so there is no move at all. */
  lemma GapIsNoMove(mv: Move)
    ensures mv !in AllMoves([A5, Record("Alice", 7, "Y")], [5, 6, 7])
  {
    var records := [A5, Record("Alice", 7, "Y")];
    AllMovesExactly(records, [5, 6, 7], mv);
    assert forall t :: Record(mv.person, 6, t) !in records;
  }
}
