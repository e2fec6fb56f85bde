/**
 * Calendar months and the month-start sequence of `pd.date_range(start, end,
 * freq='MS')`.  A parsed month label (`"%B %Y"`) is the first day of its month at
 * midnight; the range bounds are dates taken at midnight; the category keys
 * (`strftime('%Y-%m')`) are year-month pairs.
 */
module Calendar {

  /** A month of a year, the `YYYY-MM` key of its first day. */
  datatype YearMonth = YearMonth(year: int, month: int)

  /** A calendar date at midnight. */
  datatype Date = Date(year: int, month: int, day: int)

  predicate ValidMonth(ym: YearMonth)
  {
    1 <= ym.month <= 12
  }

  predicate ValidDate(d: Date)
  {
    1 <= d.month <= 12 && 1 <= d.day <= 31
  }

  /** The number of months since January of year 0. */
  function Ordinal(ym: YearMonth): int
  {
    ym.year * 12 + ym.month - 1
  }

  /** Months compare as their ordinals do, and a valid month is fixed by its ordinal. */
  lemma OrdinalOrder(a: YearMonth, b: YearMonth)
    requires ValidMonth(a) && ValidMonth(b)
    ensures Ordinal(a) < Ordinal(b) <==> a.year < b.year || (a.year == b.year && a.month < b.month)
    ensures Ordinal(a) == Ordinal(b) <==> a == b
  {
  }

  /** The month after `ym`: December rolls over to January of the next year. */
  function Next(ym: YearMonth): (n: YearMonth)
    requires ValidMonth(ym)
    ensures ValidMonth(n) && Ordinal(n) == Ordinal(ym) + 1
  {
    if ym.month == 12 then YearMonth(ym.year + 1, 1) else YearMonth(ym.year, ym.month + 1)
  }

  /** The first day of a month. */
  function Start(ym: YearMonth): Date
  {
    Date(ym.year, ym.month, 1)
  }

  /** `a <= b` on dates. */
  predicate DateLeq(a: Date, b: Date)
  {
    a.year < b.year || (a.year == b.year && (a.month < b.month || (a.month == b.month && a.day <= b.day)))
  }

  /** The month of a date. */
  function MonthOf(d: Date): YearMonth
  {
    YearMonth(d.year, d.month)
  }

  /** The first month start on or after `d`. */
  function FirstStart(d: Date): (ym: YearMonth)
    requires ValidDate(d)
    ensures ValidMonth(ym) && DateLeq(d, Start(ym))
    ensures forall m :: ValidMonth(m) && DateLeq(d, Start(m)) ==> Ordinal(ym) <= Ordinal(m)
  {
    if d.day == 1 then MonthOf(d) else Next(MonthOf(d))
  }

  /** Month starts from `first` to `last`, one month at a time. */
  function MonthsFrom(first: YearMonth, last: YearMonth): (ms: seq<YearMonth>)
    requires ValidMonth(first)
    decreases Ordinal(last) - Ordinal(first)
  {
    if Ordinal(first) > Ordinal(last) then []
    else [first] + MonthsFrom(Next(first), last)
  }

  /** `pd.date_range(start, end, freq='MS')`. */
  function DateRange(start: Date, end: Date): seq<YearMonth>
    requires ValidDate(start) && ValidDate(end)
  {
    MonthsFrom(FirstStart(start), MonthOf(end))
  }

  /** The months from `first` to `last` are consecutive: entry `i` is `i` months after
      `first`, each entry is followed by its successor month, and the last entry is
      `last` (none when `first` is after `last`). */
  lemma {:induction false} MonthsFromSpec(first: YearMonth, last: YearMonth)
    requires ValidMonth(first) && ValidMonth(last)
    ensures |MonthsFrom(first, last)| == if Ordinal(first) > Ordinal(last) then 0 else Ordinal(last) - Ordinal(first) + 1
    ensures forall i :: 0 <= i < |MonthsFrom(first, last)| ==>
      ValidMonth(MonthsFrom(first, last)[i]) && Ordinal(MonthsFrom(first, last)[i]) == Ordinal(first) + i
    ensures forall i :: 0 <= i < |MonthsFrom(first, last)| - 1 ==>
      MonthsFrom(first, last)[i + 1] == Next(MonthsFrom(first, last)[i])
    decreases Ordinal(last) - Ordinal(first)
  {
    if Ordinal(first) <= Ordinal(last) {
      var ms := MonthsFrom(first, last);
      var rest := MonthsFrom(Next(first), last);
      MonthsFromSpec(Next(first), last);
      assert ms == [first] + rest;
      forall i | 0 <= i < |ms| - 1
        ensures ms[i + 1] == Next(ms[i])
      {
        if i > 0 {
          assert ms[i] == rest[i - 1] && ms[i + 1] == rest[i];
        } else if |rest| > 0 {
          OrdinalOrder(rest[0], Next(first));
        }
      }
    }
  }

  /** The month sequence strictly increases, so it has no duplicates. */
  lemma DateRangeIncreasing(start: Date, end: Date)
    requires ValidDate(start) && ValidDate(end)
    ensures forall i, j :: 0 <= i < j < |DateRange(start, end)| ==>
      Ordinal(DateRange(start, end)[i]) < Ordinal(DateRange(start, end)[j])
  {
    MonthsFromSpec(FirstStart(start), MonthOf(end));
  }

  /** A month is in the sequence exactly when its first day lies within
      `[start, end]`, the same test the record filter applies. */
  lemma DateRangeExactly(start: Date, end: Date, ym: YearMonth)
    requires ValidDate(start) && ValidDate(end) && ValidMonth(ym)
    ensures ym in DateRange(start, end) <==> DateLeq(start, Start(ym)) && DateLeq(Start(ym), end)
  {
    var first, last := FirstStart(start), MonthOf(end);
    var ms := DateRange(start, end);
    MonthsFromSpec(first, last);
    if ym in ms {
      var i :| 0 <= i < |ms| && ms[i] == ym;
      OrdinalOrder(first, ym);
      OrdinalOrder(ym, last);
    }
    if DateLeq(start, Start(ym)) && DateLeq(Start(ym), end) {
      OrdinalOrder(ym, last);
      var i := Ordinal(ym) - Ordinal(first);
      OrdinalOrder(ms[i], ym);
    }
  }
}
