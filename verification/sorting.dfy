/**
 * `data_melted.sort_values(by=["Person", "Month"], inplace=True)`.  The frames the
 * transition loop takes out of the sorted records hold one month each, so within a
 * frame only the `Person` part of the key orders the rows; the model sorts the
 * records by person, keeping the original order of records of the same person.
 */
module Sorting {
  import opened Lex
  import opened Table
  import opened Moves

  /** The records are in person order. */
  predicate ByPerson<M>(s: seq<Record<M>>)
  {
    forall i, j :: 0 <= i < j < |s| ==> !StrLess(s[j].person, s[i].person)
  }

  /** Insert `r` after every record whose person does not sort after `r`'s. */
  function InsertByPerson<M>(r: Record<M>, s: seq<Record<M>>): (t: seq<Record<M>>)
    ensures |t| == |s| + 1
    ensures multiset(t) == multiset(s) + multiset{r}
    decreases |s|
  {
    if s == [] then [r]
    else if StrLess(r.person, s[0].person) then [r] + s
    else
      assert s == [s[0]] + s[1..];
      [s[0]] + InsertByPerson(r, s[1..])
  }

  /** The sort: the records inserted one at a time, in their original order. */
  function SortByPerson<M>(s: seq<Record<M>>): (t: seq<Record<M>>)
    ensures |t| == |s|
    ensures multiset(t) == multiset(s)
  {
    if s == [] then []
    else
      assert s == s[..|s| - 1] + [s[|s| - 1]];
      InsertByPerson(s[|s| - 1], SortByPerson(s[..|s| - 1]))
  }

  /** A record whose person sorts before the first one's goes in front, and the
      result stays in person order. */
  lemma PrependSorted<M>(r: Record<M>, s: seq<Record<M>>)
    requires ByPerson(s) && s != [] && StrLess(r.person, s[0].person)
    ensures ByPerson([r] + s)
  {
    var t := [r] + s;
    forall j | 0 < j < |t|
      ensures !StrLess(t[j].person, r.person)
    {
      assert t[j] == s[j - 1];
      StrLessTrichotomy(t[j].person, r.person);
      if j > 1 && StrLess(t[j].person, r.person) {
        StrLessTransitive(t[j].person, r.person, s[0].person);
      }
    }
  }

  /** Every record of the insertion into the rest of `s` sorts no earlier than `s`'s
      first record, when `r` does not. */
  lemma InsertedAfterHead<M>(r: Record<M>, s: seq<Record<M>>)
    requires ByPerson(s) && s != [] && !StrLess(r.person, s[0].person)
    ensures forall x :: x in InsertByPerson(r, s[1..]) ==> !StrLess(x.person, s[0].person)
  {
    var rest := s[1..];
    forall x | x in InsertByPerson(r, rest)
      ensures !StrLess(x.person, s[0].person)
    {
      assert x in multiset(InsertByPerson(r, rest));
      if x != r {
        assert x in multiset(rest);
        var k :| 0 <= k < |rest| && rest[k] == x;
        assert s[k + 1] == x;
      }
    }
  }

  /** Inserting into person-ordered records keeps them in person order. */
  lemma {:induction false} InsertSorted<M>(r: Record<M>, s: seq<Record<M>>)
    requires ByPerson(s)
    ensures ByPerson(InsertByPerson(r, s))
    decreases |s|
  {
    if s == [] {
    } else if StrLess(r.person, s[0].person) {
      PrependSorted(r, s);
    } else {
      var rest := s[1..];
      var t := InsertByPerson(r, s);
      InsertSorted(r, rest);
      InsertedAfterHead(r, s);
      assert t == [s[0]] + InsertByPerson(r, rest);
      assert forall j :: 0 < j < |t| ==> t[j] in InsertByPerson(r, rest);
    }
  }

  /** The sorted records are in person order. */
  lemma {:induction false} SortByPersonSorted<M>(s: seq<Record<M>>)
    ensures ByPerson(SortByPerson(s))
    decreases |s|
  {
    if s != [] {
      SortByPersonSorted(s[..|s| - 1]);
      InsertSorted(s[|s| - 1], SortByPerson(s[..|s| - 1]));
    }
  }

  /** The sort holds the same records as its input. */
  lemma SortByPersonMembers<M>(s: seq<Record<M>>, r: Record<M>)
    ensures r in SortByPerson(s) <==> r in s
  {
    assert r in SortByPerson(s) <==> r in multiset(SortByPerson(s));
  }

  /** The records of person `p`, in their order in `s`. */
  function OfPerson<M(!new)>(s: seq<Record<M>>, p: string): (t: seq<Record<M>>)
    ensures forall x :: x in t <==> x in s && x.person == p
  {
    if s == [] then []
    else
      assert s == [s[0]] + s[1..];
      (if s[0].person == p then [s[0]] else []) + OfPerson(s[1..], p)
  }

  lemma {:induction false} OfPersonConcat<M(!new)>(xs: seq<Record<M>>, ys: seq<Record<M>>, p: string)
    ensures OfPerson(xs + ys, p) == OfPerson(xs, p) + OfPerson(ys, p)
    decreases |xs|
  {
    if xs == [] {
      assert xs + ys == ys;
    } else {
      assert (xs + ys)[1..] == xs[1..] + ys;
      OfPersonConcat(xs[1..], ys, p);
    }
  }

  /** The records of `p` in `s` are those before its last record, then the last
      record if it is of `p`. */
  lemma OfPersonSnoc<M(!new)>(s: seq<Record<M>>, p: string)
    requires s != []
    ensures OfPerson(s, p) ==
      OfPerson(s[..|s| - 1], p) + (if s[|s| - 1].person == p then [s[|s| - 1]] else [])
  {
    var front, last := s[..|s| - 1], s[|s| - 1];
    assert s == front + [last];
    OfPersonConcat(front, [last], p);
    assert OfPerson([last], p) == (if last.person == p then [last] else []) + OfPerson([], p);
  }

  /** Records none of which is of person `p` hold no record of `p`. */
  lemma {:induction false} OfPersonNone<M(!new)>(t: seq<Record<M>>, p: string)
    requires forall i :: 0 <= i < |t| ==> t[i].person != p
    ensures OfPerson(t, p) == []
    decreases |t|
  {
    if t != [] {
      OfPersonNone(t[1..], p);
    }
  }

  /** Person-ordered records that start above `p` hold no record of `p`. */
  lemma NoneOfPerson<M(!new)>(t: seq<Record<M>>, p: string)
    requires ByPerson(t) && t != [] && StrLess(p, t[0].person)
    ensures OfPerson(t, p) == []
  {
    StrLessIrreflexive(p);
    OfPersonNone(t, p);
  }

  /** Inserting `r` into person-ordered records places it after every record of its
      person and leaves the order of the other records of each person alone. */
  lemma {:induction false} InsertStable<M(!new)>(r: Record<M>, t: seq<Record<M>>, p: string)
    requires ByPerson(t)
    ensures OfPerson(InsertByPerson(r, t), p) == OfPerson(t, p) + (if r.person == p then [r] else [])
    decreases |t|
  {
    if t == [] {
      assert OfPerson([r], p) == (if r.person == p then [r] else []) + OfPerson([], p);
    } else if StrLess(r.person, t[0].person) {
      assert ([r] + t)[1..] == t;
      if r.person == p {
        NoneOfPerson(t, p);
      }
    } else {
      var rest := t[1..];
      assert ByPerson(rest) by {
        assert forall k :: 0 <= k < |rest| ==> rest[k] == t[k + 1];
      }
      InsertStable(r, rest, p);
      assert ([t[0]] + InsertByPerson(r, rest))[1..] == InsertByPerson(r, rest);
    }
  }

  /** The sort is stable: the records of each person keep their original order. */
  lemma {:induction false} SortByPersonStable<M(!new)>(s: seq<Record<M>>, p: string)
    ensures OfPerson(SortByPerson(s), p) == OfPerson(s, p)
    decreases |s|
  {
    if s != [] {
      var front, last := s[..|s| - 1], s[|s| - 1];
      var sorted := SortByPerson(front);
      SortByPersonStable(front, p);
      SortByPersonSorted(front);
      InsertStable(last, sorted, p);
      assert SortByPerson(s) == InsertByPerson(last, sorted);
      OfPersonSnoc(s, p);
    }
  }

  /** A value `s` holds at two positions counts at least twice. */
  lemma CountTwice<T>(s: seq<T>, i: nat, j: nat)
    requires i < j < |s| && s[i] == s[j]
    ensures multiset(s)[s[i]] >= 2
  {
    assert s == s[..j] + [s[j]] + s[j + 1..];
    assert s[i] in s[..j];
  }

  /** A value counted at least twice in `s` sits at two positions. */
  lemma {:induction false} TwoPositions<T>(s: seq<T>, x: T)
    requires multiset(s)[x] >= 2
    ensures exists a, b :: 0 <= a < b < |s| && s[a] == x && s[b] == x
    decreases |s|
  {
    var n := |s|;
    var front := s[..n - 1];
    assert s == front + [s[n - 1]];
    if s[n - 1] == x {
      assert x in multiset(front);
      var a :| 0 <= a < |front| && front[a] == x;
      assert s[a] == x;
    } else {
      TwoPositions(front, x);
      var a, b :| 0 <= a < b < |front| && front[a] == x && front[b] == x;
      assert s[a] == x && s[b] == x;
    }
  }

  /** Two different records of records with one record per person and month
      differ in person or in month. */
  lemma SlotsDiffer<M>(s: seq<Record<M>>, x: Record<M>, y: Record<M>)
    requires OneRecordPerMonth(s) && x in s && y in s && x != y
    ensures x.person != y.person || x.month != y.month
  {
    var a :| 0 <= a < |s| && s[a] == x;
    var b :| 0 <= b < |s| && s[b] == y;
    assert a < b || b < a;
  }

  /** Reordering the records keeps at most one record per person and month. */
  lemma PermutationKeepsOneRecord<M>(s: seq<Record<M>>, t: seq<Record<M>>)
    requires multiset(s) == multiset(t) && OneRecordPerMonth(s)
    ensures OneRecordPerMonth(t)
  {
    forall i, j | 0 <= i < j < |t|
      ensures t[i].person != t[j].person || t[i].month != t[j].month
    {
      if t[i] == t[j] {
        CountTwice(t, i, j);
        TwoPositions(s, t[i]);
      } else {
        assert t[i] in multiset(s) && t[j] in multiset(s);
        SlotsDiffer(s, t[i], t[j]);
      }
    }
  }

  /** The sorted records hold at most one record per person and month when the
      records did. */
  lemma SortKeepsOneRecord<M>(s: seq<Record<M>>)
    requires OneRecordPerMonth(s)
    ensures OneRecordPerMonth(SortByPerson(s))
  {
    PermutationKeepsOneRecord(s, SortByPerson(s));
  }

  /** Sorting changes only the order of the moves: a move is found in the sorted
      records exactly when it is found in the records as they were. */
  lemma SortedMoves<M(!new)>(records: seq<Record<M>>, months: seq<M>, mv: Move)
    ensures mv in AllMoves(SortByPerson(records), months) <==> mv in AllMoves(records, months)
  {
    var sorted := SortByPerson(records);
    AllMovesExactly(records, months, mv);
    AllMovesExactly(sorted, months, mv);
    forall m
      ensures Record(mv.person, m, mv.from) in sorted <==> Record(mv.person, m, mv.from) in records
      ensures Record(mv.person, m, mv.to) in sorted <==> Record(mv.person, m, mv.to) in records
    {
      SortByPersonMembers(records, Record(mv.person, m, mv.from));
      SortByPersonMembers(records, Record(mv.person, m, mv.to));
    }
  }

  /** Sorting does not change who made which change: the people counts of the sorted
      records are those of the records as they were. */
  lemma {:induction false} SortedChangeCount<M(!new)>(records: seq<Record<M>>, months: seq<M>, k: (string, string))
    ensures ChangeCount(SortByPerson(records), months, k) == ChangeCount(records, months, k)
    decreases |months|
  {
    if |months| >= 2 {
      var n := |months|;
      var sorted, m1, m2 := SortByPerson(records), months[n - 2], months[n - 1];
      SortedChangeCount(records, months[..n - 1], k);
      forall p
        ensures p in Changers(sorted, m1, m2, k) <==> p in Changers(records, m1, m2, k)
      {
        SortByPersonMembers(records, Record(p, m1, k.0));
        SortByPersonMembers(records, Record(p, m2, k.1));
      }
      assert Changers(sorted, m1, m2, k) == Changers(records, m1, m2, k);
    }
  }
}
