/**
 * The ordering Python uses on `str` values and on tuples of them: strings compare
 * code point by code point, a proper prefix sorts first, and pairs compare by their
 * first component and then by their second.  pandas `groupby` sorts its group keys
 * with this ordering.
 */
module Lex {

  /** `a < b` on Python strings. */
  predicate StrLess(a: string, b: string)
    decreases |a|
  {
    if |a| == 0 then |b| > 0
    else if |b| == 0 then false
    else if a[0] != b[0] then a[0] < b[0]
    else StrLess(a[1..], b[1..])
  }

  lemma {:induction false} StrLessIrreflexive(a: string)
    ensures !StrLess(a, a)
    decreases |a|
  {
    if |a| > 0 {
      StrLessIrreflexive(a[1..]);
    }
  }

  lemma {:induction false} StrLessTrichotomy(a: string, b: string)
    ensures a == b || StrLess(a, b) || StrLess(b, a)
    ensures !(StrLess(a, b) && StrLess(b, a))
    decreases |a|
  {
    if |a| > 0 && |b| > 0 && a[0] == b[0] {
      StrLessTrichotomy(a[1..], b[1..]);
      if a[1..] == b[1..] {
        assert a == [a[0]] + a[1..] && b == [b[0]] + b[1..];
      }
    }
  }

  lemma {:induction false} StrLessTransitive(a: string, b: string, c: string)
    requires StrLess(a, b) && StrLess(b, c)
    ensures StrLess(a, c)
    decreases |a|
  {
    if |a| > 0 && a[0] == b[0] && b[0] == c[0] {
      StrLessTransitive(a[1..], b[1..], c[1..]);
    }
  }

  /** `(a0, a1) < (b0, b1)` on Python tuples of strings. */
  predicate PairLess(a: (string, string), b: (string, string))
  {
    StrLess(a.0, b.0) || (a.0 == b.0 && StrLess(a.1, b.1))
  }

  /** The tuple ordering is a strict total order: it is irreflexive and asymmetric,
      any two distinct pairs are comparable, and it is transitive. */
  lemma PairLessTotal(a: (string, string), b: (string, string))
    ensures !PairLess(a, a)
    ensures !(PairLess(a, b) && PairLess(b, a))
    ensures a == b || PairLess(a, b) || PairLess(b, a)
  {
    StrLessIrreflexive(a.0);
    StrLessIrreflexive(a.1);
    StrLessTrichotomy(a.0, b.0);
    StrLessTrichotomy(a.1, b.1);
  }

  lemma PairLessTransitive(a: (string, string), b: (string, string), c: (string, string))
    requires PairLess(a, b) && PairLess(b, c)
    ensures PairLess(a, c)
  {
    if StrLess(a.0, b.0) && StrLess(b.0, c.0) {
      StrLessTransitive(a.0, b.0, c.0);
    } else if StrLess(a.0, b.0) || StrLess(b.0, c.0) {
    } else {
      StrLessTransitive(a.1, b.1, c.1);
    }
  }
}
