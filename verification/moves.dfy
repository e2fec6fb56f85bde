/**
 * Transition extraction.  For one pair of months the frame of the earlier month is
 * inner-joined with the frame of the later month on `Person`, and only the joined
 * rows whose team changed are kept.  Over the whole timeline the rows of every
 * pair of consecutive months are stacked, earliest pair first.
 */
module Moves {
  import opened Table

  /** One joined row, reduced to `Person`, `Team_from`, `Team_to`. */
  datatype Move = Move(person: string, from: string, to: string)

  /** `df[df["Month"] == m]`: the records of month `m`, in order. */
  function AtMonth<M(==,!new)>(records: seq<Record<M>>, m: M): (rs: seq<Record<M>>)
    ensures |rs| <= |records|
    ensures forall r :: r in rs <==> r in records && r.month == m
  {
    if records == [] then []
    else
      var front := AtMonth(records[..|records| - 1], m);
      var r := records[|records| - 1];
      assert records == records[..|records| - 1] + [r];
      if r.month == m then front + [r] else front
  }

  /** The joined rows one record of the earlier month forms with the records of the
      later month: one per later record of the same person, in order. */
  function Matches<M(==,!new)>(a: Record<M>, later: seq<Record<M>>): (moves: seq<Move>)
    ensures forall mv :: mv in moves <==>
      exists b :: b in later && b.person == a.person && mv == Move(a.person, a.team, b.team)
    ensures (forall b :: b in later ==> b.person != a.person) ==> moves == []
  {
    if later == [] then []
    else
      var front := Matches(a, later[..|later| - 1]);
      var b := later[|later| - 1];
      assert later == later[..|later| - 1] + [b];
      if b.person == a.person then front + [Move(a.person, a.team, b.team)] else front
  }

  /** `df_from.merge(df_to, on="Person")`: the inner join on `Person`, ordered by the
      rows of the left frame, then by the rows of the right frame. */
  function Join<M(==,!new)>(earlier: seq<Record<M>>, later: seq<Record<M>>): (moves: seq<Move>)
    ensures forall mv :: mv in moves <==>
      exists a, b :: a in earlier && b in later && a.person == b.person &&
        mv == Move(a.person, a.team, b.team)
  {
    if earlier == [] then []
    else
      var front := earlier[..|earlier| - 1];
      var a := earlier[|earlier| - 1];
      assert earlier == front + [a];
      Join(front, later) + Matches(a, later)
  }

  /** `df_merged[df_merged["Team_from"] != df_merged["Team_to"]]`. */
  function Changes(moves: seq<Move>): (changed: seq<Move>)
    ensures |changed| <= |moves|
    ensures forall mv :: mv in changed <==> mv in moves && mv.from != mv.to
  {
    if moves == [] then []
    else
      var front := Changes(moves[..|moves| - 1]);
      var mv := moves[|moves| - 1];
      assert moves == moves[..|moves| - 1] + [mv];
      if mv.from != mv.to then front + [mv] else front
  }

  /** The team changes between month `m1` and month `m2`. */
  function PairMoves<M(==,!new)>(records: seq<Record<M>>, m1: M, m2: M): seq<Move>
  {
    Changes(Join(AtMonth(records, m1), AtMonth(records, m2)))
  }

  /** The team changes of every pair of consecutive months of `months`, stacked in
      month order. */
  function AllMoves<M(==,!new)>(records: seq<Record<M>>, months: seq<M>): seq<Move>
  {
    if |months| < 2 then []
    else
      var n := |months|;
      AllMoves(records, months[..n - 1]) + PairMoves(records, months[n - 2], months[n - 1])
  }

  /** `mv` is a move between months `m1` and `m2`: its person holds team `mv.from` in
      `m1` and a different team `mv.to` in `m2`. */
  predicate Moved<M(==)>(records: seq<Record<M>>, m1: M, m2: M, mv: Move)
  {
    && Record(mv.person, m1, mv.from) in records
    && Record(mv.person, m2, mv.to) in records
    && mv.from != mv.to
  }

  /** A joined, changed row of one month pair is exactly a person with a record in
      both months whose team differs: nobody absent from either month takes part. */
  lemma PairMovesExactly<M(!new)>(records: seq<Record<M>>, m1: M, m2: M, mv: Move)
    ensures mv in PairMoves(records, m1, m2) <==> Moved(records, m1, m2, mv)
  {
    var earlier, later := AtMonth(records, m1), AtMonth(records, m2);
    if Moved(records, m1, m2, mv) {
      var a, b := Record(mv.person, m1, mv.from), Record(mv.person, m2, mv.to);
      assert a in earlier && b in later;
      assert mv in Join(earlier, later);
    }
  }

  /** Over the timeline, a move is exactly a team change of one person between two
      months that are consecutive in `months`.  Records of months outside `months`
      and pairs of months that are not consecutive never produce a move. */
  lemma {:induction false} AllMovesExactly<M(!new)>(records: seq<Record<M>>, months: seq<M>, mv: Move)
    ensures mv in AllMoves(records, months) <==>
      exists i :: 0 <= i < |months| - 1 && Moved(records, months[i], months[i + 1], mv)
    decreases |months|
  {
    if |months| >= 2 {
      var n := |months|;
      var front := months[..n - 1];
      AllMovesExactly(records, front, mv);
      PairMovesExactly(records, months[n - 2], months[n - 1], mv);
      if exists i :: 0 <= i < n - 1 && Moved(records, months[i], months[i + 1], mv) {
        var i :| 0 <= i < n - 1 && Moved(records, months[i], months[i + 1], mv);
        if i < n - 2 {
          assert front[i] == months[i] && front[i + 1] == months[i + 1];
        }
      }
      if exists i :: 0 <= i < |front| - 1 && Moved(records, front[i], front[i + 1], mv) {
        var i :| 0 <= i < |front| - 1 && Moved(records, front[i], front[i + 1], mv);
        assert months[i] == front[i] && months[i + 1] == front[i + 1];
      }
    }
  }

  /** The number of records of `frame` that place person `p` in team `t`. */
  function Holding<M>(frame: seq<Record<M>>, p: string, t: string): nat
  {
    if frame == [] then 0
    else
      var r := frame[|frame| - 1];
      Holding(frame[..|frame| - 1], p, t) + (if r.person == p && r.team == t then 1 else 0)
  }

  /** A month's frame places `p` in `t` as often as the records hold that record. */
  lemma {:induction false} HoldingAtMonth<M(!new)>(records: seq<Record<M>>, m: M, p: string, t: string)
    ensures Holding(AtMonth(records, m), p, t) == multiset(records)[Record(p, m, t)]
    decreases |records|
  {
    if records != [] {
      var n := |records|;
      var front, r := records[..n - 1], records[n - 1];
      assert records == front + [r];
      HoldingAtMonth(front, m, p, t);
      var f := AtMonth(front, m);
      if r.month == m {
        assert AtMonth(records, m) == f + [r];
        assert (f + [r])[..|f|] == f;
      } else {
        assert AtMonth(records, m) == f;
      }
    }
  }

  /** Record `a` forms a joined row `mv` once per later record of `mv`'s person in
      team `mv.to`, when `mv` starts from `a`'s person and team. */
  lemma {:induction false} MatchesCount<M(!new)>(a: Record<M>, later: seq<Record<M>>, mv: Move)
    ensures multiset(Matches(a, later))[mv] ==
      if mv.person == a.person && mv.from == a.team then Holding(later, mv.person, mv.to) else 0
    decreases |later|
  {
    if later != [] {
      var n := |later|;
      var front, b := later[..n - 1], later[n - 1];
      MatchesCount(a, front, mv);
      if b.person == a.person {
        assert Matches(a, later) == Matches(a, front) + [Move(a.person, a.team, b.team)];
      } else {
        assert Matches(a, later) == Matches(a, front);
      }
    }
  }

  /** The inner join pairs every earlier record with every later record of the same
      person: a joined row occurs as often as the product of the two records'
      counts. */
  lemma {:induction false} JoinCount<M(!new)>(earlier: seq<Record<M>>, later: seq<Record<M>>, mv: Move)
    ensures multiset(Join(earlier, later))[mv] ==
      Holding(earlier, mv.person, mv.from) * Holding(later, mv.person, mv.to)
    decreases |earlier|
  {
    if earlier != [] {
      var n := |earlier|;
      var front, a := earlier[..n - 1], earlier[n - 1];
      JoinCount(front, later, mv);
      MatchesCount(a, later, mv);
      var c, h := Holding(front, mv.person, mv.from), Holding(later, mv.person, mv.to);
      assert multiset(Join(earlier, later))[mv] == c * h + multiset(Matches(a, later))[mv] by {
        assert Join(earlier, later) == Join(front, later) + Matches(a, later);
      }
      if a.person == mv.person && a.team == mv.from {
        assert Holding(earlier, mv.person, mv.from) == c + 1;
        Distribute(c, h);
      } else {
        assert Holding(earlier, mv.person, mv.from) == c;
      }
    }
  }

  lemma Distribute(c: nat, h: nat)
    ensures (c + 1) * h == c * h + h
  {
  }

  /** Keeping the changed rows keeps every copy of a change and no copy of a row
      without one. */
  lemma {:induction false} ChangesCount(moves: seq<Move>, mv: Move)
    ensures multiset(Changes(moves))[mv] == if mv.from != mv.to then multiset(moves)[mv] else 0
    decreases |moves|
  {
    if moves != [] {
      var n := |moves|;
      var front, x := moves[..n - 1], moves[n - 1];
      assert moves == front + [x];
      ChangesCount(front, mv);
      if x.from != x.to {
        assert Changes(moves) == Changes(front) + [x];
      } else {
        assert Changes(moves) == Changes(front);
      }
    }
  }

  /** With repeated records the join multiplies rows as the merge does: a change
      between months `m1` and `m2` occurs once per pair of a record of its person
      and source team in `m1` and a record of its person and target team in `m2`. */
  lemma PairMovesCount<M(!new)>(records: seq<Record<M>>, m1: M, m2: M, mv: Move)
    ensures multiset(PairMoves(records, m1, m2))[mv] ==
      if mv.from != mv.to
      then multiset(records)[Record(mv.person, m1, mv.from)] * multiset(records)[Record(mv.person, m2, mv.to)]
      else 0
  {
    var earlier, later := AtMonth(records, m1), AtMonth(records, m2);
    ChangesCount(Join(earlier, later), mv);
    JoinCount(earlier, later, mv);
    HoldingAtMonth(records, m1, mv.person, mv.from);
    HoldingAtMonth(records, m2, mv.person, mv.to);
  }

  /** No move leaves a team for the same team. */
  lemma NoSelfMoves<M(!new)>(records: seq<Record<M>>, months: seq<M>, mv: Move)
    requires mv in AllMoves(records, months)
    ensures mv.from != mv.to
  {
    AllMovesExactly(records, months, mv);
  }

  predicate DistinctPersons<M>(frame: seq<Record<M>>)
  {
    forall i, j :: 0 <= i < j < |frame| ==> frame[i].person != frame[j].person
  }

  predicate DistinctMovers(moves: seq<Move>)
  {
    forall i, j :: 0 <= i < j < |moves| ==> moves[i].person != moves[j].person
  }

  /** With one record per person and month, a month's frame lists each person once. */
  lemma {:induction false} AtMonthDistinct<M(!new)>(records: seq<Record<M>>, m: M)
    requires OneRecordPerMonth(records)
    ensures DistinctPersons(AtMonth(records, m))
    decreases |records|
  {
    if records != [] {
      var n := |records|;
      var front, r := records[..n - 1], records[n - 1];
      assert OneRecordPerMonth(front) by {
        assert forall k :: 0 <= k < |front| ==> front[k] == records[k];
      }
      AtMonthDistinct(front, m);
      var f := AtMonth(front, m);
      if r.month == m {
        assert AtMonth(records, m) == f + [r];
        forall x | x in f
          ensures x.person != r.person
        {
          var k :| 0 <= k < |front| && front[k] == x;
          assert records[k] == x;
        }
        assert forall i :: 0 <= i < |f| ==> f[i] in f;
      } else {
        assert AtMonth(records, m) == f;
      }
    }
  }

  /** Against a frame that lists each person once, a record joins at most one row. */
  lemma {:induction false} MatchesAtMostOne<M(!new)>(a: Record<M>, later: seq<Record<M>>)
    requires DistinctPersons(later)
    ensures |Matches(a, later)| <= 1
    decreases |later|
  {
    if later != [] {
      var n := |later|;
      var front, b := later[..n - 1], later[n - 1];
      MatchesAtMostOne(a, front);
      if b.person == a.person {
        assert forall k :: 0 <= k < |front| ==> front[k] == later[k];
        assert forall b' :: b' in front ==> b'.person != a.person;
        assert Matches(a, front) == [];
      }
    }
  }

  /** Joining two frames that list each person once yields each person at most once. */
  lemma {:induction false} JoinDistinct<M(!new)>(earlier: seq<Record<M>>, later: seq<Record<M>>)
    requires DistinctPersons(earlier) && DistinctPersons(later)
    ensures DistinctMovers(Join(earlier, later))
    decreases |earlier|
  {
    if earlier != [] {
      var n := |earlier|;
      var front, a := earlier[..n - 1], earlier[n - 1];
      assert DistinctPersons(front) by {
        assert forall k :: 0 <= k < |front| ==> front[k] == earlier[k];
      }
      JoinDistinct(front, later);
      MatchesAtMostOne(a, later);
      var j, ms := Join(front, later), Matches(a, later);
      assert Join(earlier, later) == j + ms;
      assert forall k :: 0 <= k < |front| ==> front[k].person != a.person by {
        assert forall k :: 0 <= k < |front| ==> front[k] == earlier[k];
      }
      assert forall mv :: mv in j ==> mv.person != a.person by {
        forall mv | mv in j
          ensures mv.person != a.person
        {
          var a', b' :| a' in front && b' in later && a'.person == b'.person && mv == Move(a'.person, a'.team, b'.team);
        }
      }
      assert forall mv :: mv in ms ==> mv.person == a.person;
      DistinctAppend(j, ms);
    }
  }

  /** Two lists of moves, each without a repeated person and with no person in both,
      concatenate to a list without a repeated person. */
  lemma DistinctAppend(xs: seq<Move>, ys: seq<Move>)
    requires DistinctMovers(xs) && DistinctMovers(ys)
    requires forall x, y :: x in xs && y in ys ==> x.person != y.person
    ensures DistinctMovers(xs + ys)
  {
    assert forall i :: 0 <= i < |xs| ==> xs[i] in xs;
    assert forall i :: 0 <= i < |ys| ==> ys[i] in ys;
  }

  /** Keeping only the changed rows keeps them distinct. */
  lemma {:induction false} ChangesDistinct(moves: seq<Move>)
    requires DistinctMovers(moves)
    ensures DistinctMovers(Changes(moves))
    decreases |moves|
  {
    if moves != [] {
      var n := |moves|;
      var front, mv := moves[..n - 1], moves[n - 1];
      assert DistinctMovers(front) by {
        assert forall k :: 0 <= k < |front| ==> front[k] == moves[k];
      }
      ChangesDistinct(front);
      var c := Changes(front);
      if mv.from != mv.to {
        assert Changes(moves) == c + [mv];
        assert forall k :: 0 <= k < |front| ==> front[k].person != mv.person by {
          assert forall k :: 0 <= k < |front| ==> front[k] == moves[k];
        }
        DistinctAppend(c, [mv]);
      } else {
        assert Changes(moves) == c;
      }
    }
  }

  /** With one record per person and month, a person makes at most one move between
      two months, so the moves of a month pair with a given key are as many as the
      people who made that move. */
  lemma PairMovesDistinct<M(!new)>(records: seq<Record<M>>, m1: M, m2: M)
    requires OneRecordPerMonth(records)
    ensures DistinctMovers(PairMoves(records, m1, m2))
  {
    AtMonthDistinct(records, m1);
    AtMonthDistinct(records, m2);
    JoinDistinct(AtMonth(records, m1), AtMonth(records, m2));
    ChangesDistinct(Join(AtMonth(records, m1), AtMonth(records, m2)));
  }

  /** The number of moves from `k.0` to `k.1`. */
  function CountMoves(moves: seq<Move>, k: (string, string)): nat
  {
    if moves == [] then 0
    else (if (moves[0].from, moves[0].to) == k then 1 else 0) + CountMoves(moves[1..], k)
  }

  /** The people who moved from `k.0` to `k.1`, one entry per move, in order. */
  function Movers(moves: seq<Move>, k: (string, string)): seq<string>
  {
    if moves == [] then []
    else (if (moves[0].from, moves[0].to) == k then [moves[0].person] else []) + Movers(moves[1..], k)
  }

  /** Counts and movers of two lists of moves add up. */
  lemma {:induction false} CountMovesConcat(xs: seq<Move>, ys: seq<Move>, k: (string, string))
    ensures CountMoves(xs + ys, k) == CountMoves(xs, k) + CountMoves(ys, k)
    ensures Movers(xs + ys, k) == Movers(xs, k) + Movers(ys, k)
    decreases |xs|
  {
    if xs != [] {
      assert (xs + ys)[1..] == xs[1..] + ys;
      CountMovesConcat(xs[1..], ys, k);
    } else {
      assert xs + ys == ys;
    }
  }

  /** The people who left team `k.0` in month `m1` for team `k.1` in month `m2`. */
  function Changers<M(==,!new)>(records: seq<Record<M>>, m1: M, m2: M, k: (string, string)): (ps: set<string>)
    ensures forall p :: p in ps <==> Moved(records, m1, m2, Move(p, k.0, k.1))
  {
    set r | r in records && r.month == m1 && Moved(records, m1, m2, Move(r.person, k.0, k.1)) :: r.person
  }

  /** The people a list of moves names for key `k`. */
  function MoverSet(moves: seq<Move>, k: (string, string)): (ps: set<string>)
    ensures forall p :: p in ps <==> Move(p, k.0, k.1) in moves
  {
    if moves == [] then {}
    else
      assert moves == [moves[0]] + moves[1..];
      (if (moves[0].from, moves[0].to) == k then {moves[0].person} else {}) + MoverSet(moves[1..], k)
  }

  /** Taking off the first move of a list that names each person once takes its
      person off the people named for its key and nothing else. */
  lemma MoverSetStep(moves: seq<Move>, k: (string, string))
    requires moves != [] && DistinctMovers(moves)
    ensures DistinctMovers(moves[1..])
    ensures |MoverSet(moves, k)| == |MoverSet(moves[1..], k)| + if (moves[0].from, moves[0].to) == k then 1 else 0
  {
    var mv, rest := moves[0], moves[1..];
    assert forall i :: 0 <= i < |rest| ==> rest[i] == moves[i + 1];
    assert mv.person !in MoverSet(rest, k) by {
      assert forall i :: 0 <= i < |rest| ==> rest[i].person != mv.person;
    }
  }

  /** Moves that name each person once count, for every key, the people they name. */
  lemma {:induction false} CountDistinct(moves: seq<Move>, k: (string, string))
    requires DistinctMovers(moves)
    ensures CountMoves(moves, k) == |MoverSet(moves, k)|
    decreases |moves|
  {
    if moves != [] {
      MoverSetStep(moves, k);
      CountDistinct(moves[1..], k);
    }
  }

  /** With one record per person and month, the moves of a month pair with key `k`
      are exactly as many as the people who made that change: the join pairs no
      person twice. */
  lemma PairCountIsChangers<M(!new)>(records: seq<Record<M>>, m1: M, m2: M, k: (string, string))
    requires OneRecordPerMonth(records)
    ensures CountMoves(PairMoves(records, m1, m2), k) == |Changers(records, m1, m2, k)|
  {
    var moves := PairMoves(records, m1, m2);
    PairMovesDistinct(records, m1, m2);
    CountDistinct(moves, k);
    forall p
      ensures p in MoverSet(moves, k) <==> p in Changers(records, m1, m2, k)
    {
      PairMovesExactly(records, m1, m2, Move(p, k.0, k.1));
    }
    assert MoverSet(moves, k) == Changers(records, m1, m2, k);
  }

  /** The number of people who made change `k`, summed over the pairs of consecutive
      months of `months`. */
  function ChangeCount<M(==,!new)>(records: seq<Record<M>>, months: seq<M>, k: (string, string)): nat
  {
    if |months| < 2 then 0
    else
      var n := |months|;
      ChangeCount(records, months[..n - 1], k) + |Changers(records, months[n - 2], months[n - 1], k)|
  }

  /** With one record per person and month, the moves of the timeline with key `k`
      count, pair by pair, the people who made that change. */
  lemma {:induction false} AllMovesCount<M(!new)>(records: seq<Record<M>>, months: seq<M>, k: (string, string))
    requires OneRecordPerMonth(records)
    ensures CountMoves(AllMoves(records, months), k) == ChangeCount(records, months, k)
    decreases |months|
  {
    if |months| >= 2 {
      var n := |months|;
      var front, m1, m2 := months[..n - 1], months[n - 2], months[n - 1];
      var pair := PairMoves(records, m1, m2);
      AllMovesCount(records, front, k);
      PairCountIsChangers(records, m1, m2, k);
      CountMovesConcat(AllMoves(records, front), pair, k);
      assert AllMoves(records, months) == AllMoves(records, front) + pair;
      assert ChangeCount(records, months, k) == ChangeCount(records, front, k) + |Changers(records, m1, m2, k)|;
    }
  }
}
