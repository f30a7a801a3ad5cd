/** The proleptic Gregorian calendar of Python's `datetime.date`: validity
    of a date (years 1 to 9999), month lengths as `calendar.monthrange`
    gives them, and the day of the year `strftime("%j")` prints. */
module Calendar {
  import opened Wrappers
  import opened Decimal

  const MinYear: int := 1
  const MaxYear: int := 9999

  datatype Date = Date(year: int, month: int, day: int)

  predicate IsLeap(y: int) {
    y % 4 == 0 && (y % 100 != 0 || y % 400 == 0)
  }

  function DaysInMonth(y: int, m: int): (r: int)
    requires 1 <= m <= 12
    ensures 28 <= r <= 31
    ensures m == 2 ==> (r == 29 <==> IsLeap(y))
  {
    if m == 2 then (if IsLeap(y) then 29 else 28)
    else if m == 4 || m == 6 || m == 9 || m == 11 then 30
    else 31
  }

  /** What `datetime.date(y, m, d)` accepts without raising. */
  predicate Valid(d: Date) {
    && MinYear <= d.year <= MaxYear
    && 1 <= d.month <= 12
    && 1 <= d.day <= DaysInMonth(d.year, d.month)
  }

  /** Days of a common year before each month, January to "month 13". */
  const CumulativeDays: seq<int> := [0, 31, 59, 90, 120, 151, 181, 212, 243, 273, 304, 334, 365]

  /** Days in the months before month m (the leap day counts from March on). */
  function DaysBefore(y: int, m: int): (r: nat)
    requires 1 <= m <= 13
  {
    CumulativeDays[m - 1] + if m > 2 && IsLeap(y) then 1 else 0
  }

  function DaysInYear(y: int): (r: nat)
    ensures r == DaysBefore(y, 13)
  {
    if IsLeap(y) then 366 else 365
  }

  /** The table agrees with the month lengths. */
  lemma DaysBeforeStep(y: int, m: int)
    requires 1 <= m <= 12
    ensures DaysBefore(y, m + 1) == DaysBefore(y, m) + DaysInMonth(y, m)
  {
  }

  /** `int(d.strftime("%j"))`. */
  function DayOfYear(d: Date): (r: int)
    requires Valid(d)
    ensures 1 <= r <= DaysInYear(d.year)
  {
    DaysBeforeStep(d.year, d.month);
    DaysBeforeMonotone(d.year, d.month + 1, 13);
    DaysBefore(d.year, d.month) + d.day
  }

  lemma {:induction false} DaysBeforeMonotone(y: int, a: int, b: int)
    requires 1 <= a <= b <= 13
    ensures DaysBefore(y, a) <= DaysBefore(y, b)
    decreases b - a
  {
    if a < b {
      DaysBeforeMonotone(y, a, b - 1);
      DaysBeforeStep(y, b - 1);
    }
  }

  /** The date with day of year n, found month by month from m on. */
  function Locate(y: int, m: int, n: int): (d: Date)
    requires 1 <= m <= 12 && DaysBefore(y, m) < n <= DaysInYear(y)
    ensures d.year == y && d.month >= m
    decreases 12 - m
  {
    if m == 12 || n <= DaysBefore(y, m + 1) then Date(y, m, n - DaysBefore(y, m))
    else Locate(y, m + 1, n)
  }

  /** The inverse of `DayOfYear`. */
  function FromDayOfYear(y: int, n: int): (d: Date)
    requires 1 <= n <= DaysInYear(y)
  {
    Locate(y, 1, n)
  }

  lemma {:induction false} LocateCorrect(y: int, m: int, n: int)
    requires MinYear <= y <= MaxYear
    requires 1 <= m <= 12 && DaysBefore(y, m) < n <= DaysInYear(y)
    ensures Valid(Locate(y, m, n)) && DayOfYear(Locate(y, m, n)) == n
    decreases 12 - m
  {
    DaysBeforeStep(y, m);
    if !(m == 12 || n <= DaysBefore(y, m + 1)) {
      LocateCorrect(y, m + 1, n);
    }
  }

  lemma FromDayOfYearCorrect(y: int, n: int)
    requires MinYear <= y <= MaxYear && 1 <= n <= DaysInYear(y)
    ensures Valid(FromDayOfYear(y, n)) && DayOfYear(FromDayOfYear(y, n)) == n
  {
    LocateCorrect(y, 1, n);
  }

  /** A day of the year names one date of that year. */
  lemma DayOfYearInjective(d1: Date, d2: Date)
    requires Valid(d1) && Valid(d2) && d1.year == d2.year
    requires DayOfYear(d1) == DayOfYear(d2)
    ensures d1 == d2
  {
    if d1.month < d2.month {
      MonthOrder(d1, d2);
    } else if d2.month < d1.month {
      MonthOrder(d2, d1);
    }
  }

  /** A date in an earlier month of the same year comes earlier in the year. */
  lemma MonthOrder(d1: Date, d2: Date)
    requires Valid(d1) && Valid(d2) && d1.year == d2.year && d1.month < d2.month
    ensures DayOfYear(d1) < DayOfYear(d2)
  {
    var y := d1.year;
    DaysBeforeStep(y, d1.month);
    DaysBeforeMonotone(y, d1.month + 1, d2.month);
  }

  lemma DayOfYearRoundTrip(d: Date)
    requires Valid(d)
    ensures FromDayOfYear(d.year, DayOfYear(d)) == d
  {
    FromDayOfYearCorrect(d.year, DayOfYear(d));
    DayOfYearInjective(FromDayOfYear(d.year, DayOfYear(d)), d);
  }

  /** `a <= b` on `datetime.date`: chronological, so year, then month, then day. */
  predicate NotAfter(a: Date, b: Date) {
    a.year < b.year
    || (a.year == b.year && (a.month < b.month || (a.month == b.month && a.day <= b.day)))
  }

  /** `d - timedelta(days=1)`; the day before 1 January of year 1 does not exist. */
  function PrevDay(d: Date): (r: Date)
    requires Valid(d) && d != Date(MinYear, 1, 1)
    ensures Valid(r) && NotAfter(r, d) && r != d
    ensures forall x :: Valid(x) && NotAfter(x, d) && x != d ==> NotAfter(x, r)
  {
    if d.day > 1 then Date(d.year, d.month, d.day - 1)
    else if d.month > 1 then Date(d.year, d.month - 1, DaysInMonth(d.year, d.month - 1))
    else Date(d.year - 1, 12, 31)
  }

  /** `str(d)` / `d.isoformat()`: `YYYY-MM-DD`. */
  function IsoDate(d: Date): string {
    FormatInt(d.year, 4) + "-" + FormatInt(d.month, 2) + "-" + FormatInt(d.day, 2)
  }

  /** `datetime.fromisoformat(s).date()` read on the `YYYY-MM-DD` form only,
      the form that the first ten characters of a Traccar timestamp take;
      None where that form does not name a calendar date. */
  function ParseIsoDate(s: string): (r: Option<Date>)
    ensures r.Some? ==> Valid(r.value)
  {
    if |s| != 10 || s[4] != '-' || s[7] != '-'
       || !IsDigits(s[..4]) || !IsDigits(s[5..7]) || !IsDigits(s[8..]) then None
    else
      var d := Date(ParseNat(s[..4]), ParseNat(s[5..7]), ParseNat(s[8..]));
      if Valid(d) then Some(d) else None
  }

  lemma IsoDateRoundTrip(d: Date)
    requires Valid(d)
    ensures |IsoDate(d)| == 10
    ensures ParseIsoDate(IsoDate(d)) == Some(d)
  {
    FixedWidth(d.year, 4);
    FixedWidth(d.month, 2);
    FixedWidth(d.day, 2);
    var s := IsoDate(d);
    assert s[..4] == FormatInt(d.year, 4);
    assert s[5..7] == FormatInt(d.month, 2);
    assert s[8..] == FormatInt(d.day, 2);
  }

  /** So two valid dates print differently. */
  lemma IsoDateInjective(a: Date, b: Date)
    requires Valid(a) && Valid(b) && IsoDate(a) == IsoDate(b)
    ensures a == b
  {
    IsoDateRoundTrip(a);
    IsoDateRoundTrip(b);
  }
}
