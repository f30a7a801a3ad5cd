/** `get_aggregated_zones` and `invalidate_cache`: the stored daily zones of
    one equipment, filtered by a period and aggregated, memoised per
    (equipment, start, end). The table is a sequence of rows and the cache a
    map; both are passed in and returned instead of living in globals. */
module ZoneCache {
  import opened Wrappers
  import opened Calendar
  import opened ZonePeriod
  import opened Regions
  import opened Seqs

  /** A `DailyZone` row. `geom` is None when `polygon_wkt` is NULL or empty;
      `passCount` is the nullable `pass_count` column. */
  datatype DailyRow<P> = DailyRow(id: int, equipment: int, date: Date, geom: Option<set<P>>, passCount: Option<int>)

  datatype Key = Key(equipment: int, start: Option<Date>, end: Option<Date>)

  type Cache<P> = map<Key, seq<Zone<P>>>

  function Owned<P>(e: int): DailyRow<P> -> bool {
    (row: DailyRow<P>) => row.equipment == e
  }

  /** `filter_by(equipment_id=e)`, in table order. */
  function Of<P>(rows: seq<DailyRow<P>>, e: int): seq<DailyRow<P>> {
    Filter(rows, Owned(e))
  }

  /** `[str(z.date)] * (z.pass_count or 1)`: a missing or zero count gives
      one copy, a negative one none. */
  function Copies(pc: Option<int>): nat {
    if pc.None? || pc.value == 0 then 1 else if pc.value < 0 then 0 else pc.value
  }

  function DailyZoneOf<P>(row: DailyRow<P>): Zone<P>
    requires row.geom.Some?
  {
    Zone(row.geom.value, seq(Copies(row.passCount), _ => IsoDate(row.date)), Some([row.id]))
  }

  /** The rows inside the period that have a polygon, as daily zones. */
  function Daily<P>(rows: seq<DailyRow<P>>, p: Period): (r: seq<Zone<P>>)
    ensures |r| <= |rows|
  {
    if |rows| == 0 then []
    else
      (if InPeriod(rows[0].date, p) && rows[0].geom.Some? then [DailyZoneOf(rows[0])] else [])
      + Daily(rows[1..], p)
  }

  /** What a cache miss computes for a key. */
  function Fresh<P>(rows: seq<DailyRow<P>>, k: Key): seq<Zone<P>> {
    Aggregate(Daily(Of(rows, k.equipment), Period(k.start, k.end)))
  }

  /** Every cached entry is what a miss would compute now. */
  predicate Coherent<P>(c: Cache<P>, rows: seq<DailyRow<P>>) {
    forall k :: k in c ==> c[k] == Fresh(rows, k)
  }

  /** `get_aggregated_zones(...)`: the aggregated zones and the updated cache;
      an invalid year, month or day raises before the cache is touched. */
  function GetAggregatedZones<P>(c: Cache<P>, rows: seq<DailyRow<P>>, equipment: int,
                                 year: Option<int>, month: Option<int>, day: Option<int>,
                                 start: Option<Date>, end: Option<Date>): (r: Result<(seq<Zone<P>>, Cache<P>), PeriodError>)
    ensures r.Ok? <==> DeterminePeriod(year, month, day, start, end).Ok?
    ensures r.Ok? ==>
      var p := DeterminePeriod(year, month, day, start, end).value;
      var k := Key(equipment, p.start, p.end);
      && r.value.1.Keys == c.Keys + {k}
      && (forall k' :: k' in c ==> r.value.1[k'] == c[k'])
      && r.value.0 == r.value.1[k]
      && (Coherent(c, rows) ==> r.value.0 == Fresh(rows, k) && Coherent(r.value.1, rows))
  {
    var p :- DeterminePeriod(year, month, day, start, end);
    var k := Key(equipment, p.start, p.end);
    if k in c then Ok((c[k], c))
    else
      var v := Fresh(rows, k);
      Ok((v, c[k := v]))
  }

  /** `invalidate_cache(equipment_id)`. */
  function InvalidateCache<P>(c: Cache<P>, equipment: int): (r: Cache<P>)
    ensures forall k :: k in r <==> k in c && k.equipment != equipment
    ensures forall k :: k in r ==> r[k] == c[k]
  {
    map k | k in c && k.equipment != equipment :: c[k]
  }

  /** After a change of the table that leaves every other equipment's rows as
      they were, dropping that equipment's entries makes the cache coherent
      again. */
  lemma InvalidateRestoresCoherence<P>(c: Cache<P>, rows: seq<DailyRow<P>>, rows': seq<DailyRow<P>>, equipment: int)
    requires Coherent(c, rows)
    requires forall e :: e != equipment ==> Of(rows', e) == Of(rows, e)
    ensures Coherent(InvalidateCache(c, equipment), rows')
  {
    var r := InvalidateCache(c, equipment);
    forall k | k in r ensures r[k] == Fresh(rows', k) {
      assert Of(rows', k.equipment) == Of(rows, k.equipment);
    }
  }

  // ---------------------------------------------------------------------------
  // What the aggregated zones contain

  /** The dates listed by a daily zone are the printed date of rows of the
      period. */
  predicate DatesIn<P>(zs: seq<Zone<P>>, p: Period) {
    forall i, j :: 0 <= i < |zs| && 0 <= j < |zs[i].dates| ==>
      ParseIsoDate(zs[i].dates[j]).Some? && InPeriod(ParseIsoDate(zs[i].dates[j]).value, p)
  }

  lemma {:induction false} DailyDatesIn<P>(rows: seq<DailyRow<P>>, p: Period)
    requires forall i :: 0 <= i < |rows| ==> Valid(rows[i].date)
    ensures DatesIn(Daily(rows, p), p)
  {
    if |rows| > 0 {
      DailyDatesIn(rows[1..], p);
      IsoDateRoundTrip(rows[0].date);
    }
  }

  lemma {:induction false} CoverDatesIn<P>(zs: seq<Zone<P>>, p: Period, x: P)
    requires DatesIn(zs, p)
    ensures forall j :: 0 <= j < |CoverDates(zs, x)| ==>
      ParseIsoDate(CoverDates(zs, x)[j]).Some? && InPeriod(ParseIsoDate(CoverDates(zs, x)[j]).value, p)
  {
    if |zs| > 0 {
      CoverDatesIn(zs[..|zs| - 1], p, x);
    }
  }

  lemma OfValid<P>(rows: seq<DailyRow<P>>, e: int)
    requires forall i :: 0 <= i < |rows| ==> Valid(rows[i].date)
    ensures forall i :: 0 <= i < |Of(rows, e)| ==> Valid(Of(rows, e)[i].date)
  {
    forall i | 0 <= i < |Of(rows, e)| ensures Valid(Of(rows, e)[i].date) {
      FilterMember(rows, Owned(e), Of(rows, e)[i]);
    }
  }

  lemma PiecesDatesIn<P>(zs: seq<Zone<P>>, r: seq<Zone<P>>, p: Period)
    requires DatesIn(zs, p)
    requires forall i :: 0 <= i < |r| ==> r[i].geom != {}
    requires forall i, x :: 0 <= i < |r| && x in r[i].geom ==> r[i].dates == CoverDates(zs, x)
    ensures DatesIn(r, p)
  {
    forall i, j | 0 <= i < |r| && 0 <= j < |r[i].dates|
      ensures ParseIsoDate(r[i].dates[j]).Some? && InPeriod(ParseIsoDate(r[i].dates[j]).value, p)
    {
      var x :| x in r[i].geom;
      CoverDatesIn(zs, p, x);
      assert r[i].dates[j] == CoverDates(zs, x)[j];
    }
  }

  /** Every date a cached piece lists is a date of the requested period. */
  lemma FreshDatesInPeriod<P>(rows: seq<DailyRow<P>>, k: Key)
    requires forall i :: 0 <= i < |rows| ==> Valid(rows[i].date)
    ensures DatesIn(Fresh(rows, k), Period(k.start, k.end))
  {
    var p := Period(k.start, k.end);
    var zs := Daily(Of(rows, k.equipment), p);
    OfValid(rows, k.equipment);
    DailyDatesIn(Of(rows, k.equipment), p);
    if |zs| >= 2 {
      AggregatePartition(zs);
      PiecesDatesIn(zs, Aggregate(zs), p);
    }
  }
}
