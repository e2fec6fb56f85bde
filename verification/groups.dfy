/**
 * Aggregation by `(Team_from, Team_to)`.  pandas `groupby` gathers the rows of each
 * key, adds their counts (`sum`, `size`), joins their people in row order, and
 * lists the groups sorted by key.  The model folds the rows one at a time into a
 * list of edges kept sorted by key, merging a row into the edge of its key.
 */
module Groups {
  import opened Lex
  import opened Moves

  /** One aggregated row: a team pair, its weight and the people behind it. */
  datatype Edge = Edge(from: string, to: string, count: nat, people: seq<string>)

  function Key(e: Edge): (string, string)
  {
    (e.from, e.to)
  }

  /** Keys strictly increase along the list, so each key appears at most once. */
  predicate Sorted(edges: seq<Edge>)
  {
    forall i, j :: 0 <= i < j < |edges| ==> PairLess(Key(edges[i]), Key(edges[j]))
  }

  /** The total weight of the rows with key `k`. */
  function Weight(edges: seq<Edge>, k: (string, string)): nat
  {
    if edges == [] then 0
    else (if Key(edges[0]) == k then edges[0].count else 0) + Weight(edges[1..], k)
  }

  /** The people of the rows with key `k`, in row order. */
  function People(edges: seq<Edge>, k: (string, string)): seq<string>
  {
    if edges == [] then []
    else (if Key(edges[0]) == k then edges[0].people else []) + People(edges[1..], k)
  }

  lemma {:induction false} WeightConcat(xs: seq<Edge>, ys: seq<Edge>, k: (string, string))
    ensures Weight(xs + ys, k) == Weight(xs, k) + Weight(ys, k)
    ensures People(xs + ys, k) == People(xs, k) + People(ys, k)
    decreases |xs|
  {
    if xs != [] {
      assert (xs + ys)[1..] == xs[1..] + ys;
      WeightConcat(xs[1..], ys, k);
    } else {
      assert xs + ys == ys;
    }
  }

  /** A row merged into the edge of its key. */
  function Merge(a: Edge, e: Edge): Edge
  {
    Edge(a.from, a.to, a.count + e.count, a.people + e.people)
  }

  /** One step of the aggregation: merge row `e` into the edge of its key, or insert a
      new edge at its place in key order. */
  function Add(edges: seq<Edge>, e: Edge): seq<Edge>
  {
    if edges == [] then [e]
    else if Key(edges[0]) == Key(e) then [Merge(edges[0], e)] + edges[1..]
    else if PairLess(Key(e), Key(edges[0])) then [e] + edges
    else [edges[0]] + Add(edges[1..], e)
  }

  /** In a sorted list no edge after the first has the first edge's key, nor a key
      below it. */
  lemma {:induction false} SortedTail(edges: seq<Edge>, k: (string, string))
    requires Sorted(edges) && edges != []
    requires k == Key(edges[0]) || PairLess(k, Key(edges[0]))
    ensures Weight(edges[1..], k) == 0 && People(edges[1..], k) == []
    decreases |edges|
  {
    var rest := edges[1..];
    if rest != [] {
      PairLessTotal(k, Key(rest[0]));
      if PairLess(k, Key(edges[0])) {
        PairLessTransitive(k, Key(edges[0]), Key(rest[0]));
      }
      SortedTail(rest, k);
    }
  }

  /** Every edge after adding a row is an old edge, the row itself, or the row merged
      into the old edge of its key. */
  lemma {:induction false} AddMembers(edges: seq<Edge>, e: Edge)
    ensures forall x :: x in Add(edges, e) ==>
      x in edges || x == e || (Key(x) == Key(e) && exists y :: y in edges && x == Merge(y, e))
    decreases |edges|
  {
    if edges != [] && Key(edges[0]) != Key(e) && !PairLess(Key(e), Key(edges[0])) {
      AddMembers(edges[1..], e);
    }
  }

  /** Adding a row keeps the keys sorted. */
  lemma {:induction false} AddSorted(edges: seq<Edge>, e: Edge)
    requires Sorted(edges)
    ensures Sorted(Add(edges, e))
    decreases |edges|
  {
    var r := Add(edges, e);
    if edges == [] {
    } else if Key(edges[0]) == Key(e) {
      assert r[1..] == edges[1..];
    } else if PairLess(Key(e), Key(edges[0])) {
      assert r[1..] == edges;
      forall j | 0 < j < |r|
        ensures PairLess(Key(r[0]), Key(r[j]))
      {
        if j > 1 { PairLessTransitive(Key(e), Key(edges[0]), Key(edges[j - 1])); }
      }
    } else {
      var rest := edges[1..];
      AddSorted(rest, e);
      AddMembers(rest, e);
      assert r[1..] == Add(rest, e);
      PairLessTotal(Key(e), Key(edges[0]));
      forall j | 0 < j < |r|
        ensures PairLess(Key(r[0]), Key(r[j]))
      {
        var x := r[j];
        assert x in Add(rest, e);
      }
    }
  }

  /** Adding a row adds its count to the weight of its key; other keys keep theirs. */
  lemma {:induction false} AddWeight(edges: seq<Edge>, e: Edge, k: (string, string))
    ensures Weight(Add(edges, e), k) == Weight(edges, k) + (if Key(e) == k then e.count else 0)
    decreases |edges|
  {
    var r := Add(edges, e);
    if edges == [] {
    } else if Key(edges[0]) == Key(e) {
      assert r[1..] == edges[1..];
    } else if PairLess(Key(e), Key(edges[0])) {
      assert r[1..] == edges;
    } else {
      AddWeight(edges[1..], e, k);
      assert r[1..] == Add(edges[1..], e);
    }
  }

  /** Adding a row appends its people to the people of its key; other keys keep theirs. */
  lemma {:induction false} AddPeople(edges: seq<Edge>, e: Edge, k: (string, string))
    requires Sorted(edges)
    ensures People(Add(edges, e), k) == People(edges, k) + (if Key(e) == k then e.people else [])
    decreases |edges|
  {
    var r := Add(edges, e);
    if edges == [] {
    } else if Key(edges[0]) == Key(e) {
      assert r[1..] == edges[1..];
      if Key(e) == k {
        SortedTail(edges, k);
      }
    } else if PairLess(Key(e), Key(edges[0])) {
      assert r[1..] == edges;
      if Key(e) == k {
        SortedTail(edges, k);
        assert People(edges, k) == People(edges[1..], k);
      }
    } else {
      AddPeople(edges[1..], e, k);
      assert r[1..] == Add(edges[1..], e);
    }
  }

  /** `groupby(["Team_from", "Team_to"])` over `rows`: one edge per key, in key order. */
  function Group(rows: seq<Edge>): seq<Edge>
  {
    if rows == [] then []
    else Add(Group(rows[..|rows| - 1]), rows[|rows| - 1])
  }

  /** The grouped edges are sorted by key (so each key appears once), each key's
      weight is the total count of its rows, and each key's people are the people
      of its rows in row order. */
  lemma {:induction false} GroupSpec(rows: seq<Edge>, k: (string, string))
    ensures Sorted(Group(rows))
    ensures Weight(Group(rows), k) == Weight(rows, k)
    ensures People(Group(rows), k) == People(rows, k)
    decreases |rows|
  {
    if rows != [] {
      var front, last := rows[..|rows| - 1], rows[|rows| - 1];
      GroupSpec(front, k);
      AddSorted(Group(front), last);
      AddWeight(Group(front), last, k);
      AddPeople(Group(front), last, k);
      assert rows == front + [last];
      WeightConcat(front, [last], k);
    }
  }

  /** In a sorted list the weight and the people of an edge's key are those of the
      edge itself. */
  lemma {:induction false} SortedEdge(edges: seq<Edge>, i: nat)
    requires Sorted(edges) && i < |edges|
    ensures Weight(edges, Key(edges[i])) == edges[i].count
    ensures People(edges, Key(edges[i])) == edges[i].people
    decreases i
  {
    if i == 0 {
      SortedTail(edges, Key(edges[0]));
    } else {
      PairLessTotal(Key(edges[0]), Key(edges[i]));
      SortedEdge(edges[1..], i - 1);
    }
  }

  /** An edge is a real movement with a positive weight. */
  predicate Proper(e: Edge)
  {
    e.from != e.to && e.count >= 1
  }

  /** An edge's weight is the number of people listed for it, repeats included. */
  predicate Attributed(e: Edge)
  {
    e.count == |e.people|
  }

  /** Grouping keeps the rows' per-edge guarantees: no self-loop and a positive
      weight, and a weight equal to the number of people listed. */
  lemma {:induction false} GroupKeeps(rows: seq<Edge>)
    ensures (forall e :: e in rows ==> Proper(e)) ==> forall e :: e in Group(rows) ==> Proper(e)
    ensures (forall e :: e in rows ==> Attributed(e)) ==> forall e :: e in Group(rows) ==> Attributed(e)
    decreases |rows|
  {
    if rows != [] {
      var front, last := rows[..|rows| - 1], rows[|rows| - 1];
      GroupKeeps(front);
      AddMembers(Group(front), last);
      assert forall e :: e in front ==> e in rows;
      forall x | x in Group(rows) && x !in Group(front) && x != last
        ensures Key(x) == Key(last) && exists y :: y in Group(front) && x == Merge(y, last)
      {
      }
      if forall e :: e in rows ==> Attributed(e) {
        assert forall e :: e in front ==> Attributed(e);
        assert Attributed(last) by { assert last in rows; }
        forall x | x in Group(rows)
          ensures Attributed(x)
        {
          if x !in Group(front) && x != last {
            var y :| y in Group(front) && x == Merge(y, last);
            assert |x.people| == |y.people| + |last.people|;
          }
        }
      }
    }
  }

  /** Moves as rows of `value_counts`: weight one each, no people. */
  function Units(moves: seq<Move>): (rows: seq<Edge>)
    ensures |rows| == |moves|
  {
    seq(|moves|, i requires 0 <= i < |moves| => Edge(moves[i].from, moves[i].to, 1, []))
  }

  /** Moves as rows of the stacked frame: weight one each, with the person. */
  function Tagged(moves: seq<Move>): (rows: seq<Edge>)
    ensures |rows| == |moves|
  {
    seq(|moves|, i requires 0 <= i < |moves| => Edge(moves[i].from, moves[i].to, 1, [moves[i].person]))
  }

  /** Counting unit rows counts moves; the rows keep the moves' guarantees. */
  lemma {:induction false} UnitsSpec(moves: seq<Move>, k: (string, string))
    ensures Weight(Units(moves), k) == CountMoves(moves, k)
    ensures (forall mv :: mv in moves ==> mv.from != mv.to) ==> forall e :: e in Units(moves) ==> Proper(e)
    decreases |moves|
  {
    if moves != [] {
      assert Units(moves)[1..] == Units(moves[1..]);
      UnitsSpec(moves[1..], k);
    }
  }

  /** Tagged rows carry one unit of weight and one name per move, so a key's weight is
      its number of moves and its people are its movers. */
  lemma {:induction false} TaggedSpec(moves: seq<Move>, k: (string, string))
    ensures Weight(Tagged(moves), k) == CountMoves(moves, k)
    ensures People(Tagged(moves), k) == Movers(moves, k)
    ensures forall e :: e in Tagged(moves) ==> Attributed(e)
    ensures (forall mv :: mv in moves ==> mv.from != mv.to) ==> forall e :: e in Tagged(moves) ==> Proper(e)
    decreases |moves|
  {
    if moves != [] {
      assert Tagged(moves)[1..] == Tagged(moves[1..]);
      TaggedSpec(moves[1..], k);
    }
  }

  /** `pd.concat(tables)`: the rows of all tables, one table after the other. */
  function Stack(tables: seq<seq<Edge>>): seq<Edge>
  {
    if tables == [] then [] else Stack(tables[..|tables| - 1]) + tables[|tables| - 1]
  }

  /** A key has positive weight only if some row has that key. */
  lemma {:induction false} WeightPositive(edges: seq<Edge>, k: (string, string))
    requires Weight(edges, k) > 0
    ensures exists i :: 0 <= i < |edges| && Key(edges[i]) == k
    decreases |edges|
  {
    if Key(edges[0]) != k {
      WeightPositive(edges[1..], k);
      var i :| 0 <= i < |edges[1..]| && Key(edges[1..][i]) == k;
      assert Key(edges[i + 1]) == k;
    }
  }

  /** A stacked row comes from one of the tables. */
  lemma {:induction false} StackMembers(tables: seq<seq<Edge>>, e: Edge)
    requires e in Stack(tables)
    ensures exists i :: 0 <= i < |tables| && e in tables[i]
    decreases |tables|
  {
    var n := |tables|;
    if e !in tables[n - 1] {
      StackMembers(tables[..n - 1], e);
    }
  }
}
