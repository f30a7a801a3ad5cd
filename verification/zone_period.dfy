/** `_determine_period`: the date bounds a zone query is filtered by, from
    either explicit bounds or a calendar year, month or day. */
module ZonePeriod {
  import opened Wrappers
  import opened Calendar

  /** Inclusive bounds; a missing bound does not filter. */
  datatype Period = Period(start: Option<Date>, end: Option<Date>)

  /** `datetime.date(...)` raised `ValueError`. */
  datatype PeriodError = InvalidDate(d: Date)

  /** `datetime.date(y, m, d)`. */
  function MakeDate(y: int, m: int, d: int): (r: Result<Date, PeriodError>)
    ensures r.Ok? <==> Valid(Date(y, m, d))
    ensures r.Ok? ==> r.value == Date(y, m, d)
  {
    if Valid(Date(y, m, d)) then Ok(Date(y, m, d)) else Err(InvalidDate(Date(y, m, d)))
  }

  /** Last day of a month: 31 December, or the day before the first of the
      next month. */
  function MonthEnd(y: int, m: int): (r: Date)
    requires MinYear <= y <= MaxYear && 1 <= m <= 12
  {
    if m == 12 then Date(y, 12, 31) else PrevDay(Date(y, m + 1, 1))
  }

  function DeterminePeriod(year: Option<int>, month: Option<int>, day: Option<int>,
                           start: Option<Date>, end: Option<Date>): (r: Result<Period, PeriodError>)
    ensures start.Some? || end.Some? ==> r == Ok(Period(start, end))
    ensures start.None? && end.None? && year.None? ==> r == Ok(Period(None, None))
  {
    if start.Some? || end.Some? then Ok(Period(start, end))
    else if year.None? then Ok(Period(None, None))
    else
      var y := year.value;
      if month.Some? then
        var m := month.value;
        if day.Some? then
          var d :- MakeDate(y, m, day.value);
          Ok(Period(Some(d), Some(d)))
        else
          var first :- MakeDate(y, m, 1);
          Ok(Period(Some(first), Some(MonthEnd(y, m))))
      else
        var first :- MakeDate(y, 1, 1);
        var last :- MakeDate(y, 12, 31);
        Ok(Period(Some(first), Some(last)))
  }

  /** A stored date passes the query's `date >= start` and `date <= end`. */
  predicate InPeriod(d: Date, p: Period) {
    && (p.start.Some? ==> NotAfter(p.start.value, d))
    && (p.end.Some? ==> NotAfter(d, p.end.value))
  }

  lemma MonthEndIsLastDay(y: int, m: int)
    requires MinYear <= y <= MaxYear && 1 <= m <= 12
    ensures MonthEnd(y, m) == Date(y, m, DaysInMonth(y, m))
  {
  }

  /** A day: exactly that date passes; an invalid day raises. */
  lemma DayPeriod(y: int, m: int, dd: int, x: Date)
    requires Valid(x)
    ensures var r := DeterminePeriod(Some(y), Some(m), Some(dd), None, None);
      && (r.Ok? <==> Valid(Date(y, m, dd)))
      && (r.Ok? ==> (InPeriod(x, r.value) <==> x == Date(y, m, dd)))
  {
  }

  /** A month: exactly the dates of that month pass; a month outside 1..12
      or a year outside 1..9999 raises. */
  lemma MonthPeriod(y: int, m: int, x: Date)
    requires Valid(x)
    ensures var r := DeterminePeriod(Some(y), Some(m), None, None, None);
      && (r.Ok? <==> MinYear <= y <= MaxYear && 1 <= m <= 12)
      && (r.Ok? ==> (InPeriod(x, r.value) <==> x.year == y && x.month == m))
  {
    if MinYear <= y <= MaxYear && 1 <= m <= 12 {
      MonthEndIsLastDay(y, m);
    }
  }

  /** A year: exactly the dates of that year pass (a day given without a
      month is ignored). */
  lemma YearPeriod(y: int, day: Option<int>, x: Date)
    requires Valid(x)
    ensures var r := DeterminePeriod(Some(y), None, day, None, None);
      && (r.Ok? <==> MinYear <= y <= MaxYear)
      && (r.Ok? ==> (InPeriod(x, r.value) <==> x.year == y))
  {
  }

  /** Without bounds and without a year every date passes; a day or a month
      given without a year is ignored. */
  lemma NoPeriod(month: Option<int>, day: Option<int>, x: Date)
    ensures DeterminePeriod(None, month, day, None, None) == Ok(Period(None, None))
    ensures InPeriod(x, Period(None, None))
  {
  }
}
