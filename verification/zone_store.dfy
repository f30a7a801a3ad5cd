/** The zone replacement step of `process_equipment`: for each date that has
    new polygons, the equipment's `DailyZone` rows of that date are deleted
    and one row per aggregated piece is added, its `pass_count` being the
    number of dates the piece lists. The table is a sequence of rows and the
    database's id counter a parameter. */
module ZoneStore {
  import opened Wrappers
  import opened Calendar
  import opened Regions
  import opened Seqs
  import opened ZoneCache

  /** The date text is not a calendar date in the `YYYY-MM-DD` form. */
  datatype StoreError = BadDate(text: string)

  /** `{'geometry': g, 'dates': [date_str]}` for each polygon of the day. */
  function DayZones<P>(dateStr: string, geoms: seq<set<P>>): seq<Zone<P>> {
    seq(|geoms|, j requires 0 <= j < |geoms| => Zone(geoms[j], [dateStr], None))
  }

  /** The aggregated pieces stored for the day (none for no polygon, the
      `if geoms:` guard). */
  function Pieces<P>(dateStr: string, geoms: seq<set<P>>): seq<Zone<P>> {
    if |geoms| == 0 then [] else Aggregate(DayZones(dateStr, geoms))
  }

  /** How many of the day's polygons contain x. */
  function Covering<P>(geoms: seq<set<P>>, x: P): nat {
    if |geoms| == 0 then 0
    else Covering(geoms[..|geoms| - 1], x) + (if x in geoms[|geoms| - 1] then 1 else 0)
  }

  /** One `DailyZone` per piece, numbered from `nextId`. */
  function NewRows<P>(pieces: seq<Zone<P>>, equipment: int, d: Date, nextId: int): seq<DailyRow<P>> {
    seq(|pieces|, j requires 0 <= j < |pieces| =>
      DailyRow(nextId + j, equipment, d, Some(pieces[j].geom), Some(|pieces[j].dates|)))
  }

  function SameDay<P>(e: int, d: Date): DailyRow<P> -> bool {
    (row: DailyRow<P>) => row.equipment == e && row.date == d
  }

  function OtherDay<P>(e: int, d: Date): DailyRow<P> -> bool {
    (row: DailyRow<P>) => !(row.equipment == e && row.date == d)
  }

  /** The loop body for one date: the table after the delete and the adds,
      and the next free id. */
  function StoreDay<P>(rows: seq<DailyRow<P>>, nextId: int, equipment: int, dateStr: string,
                       geoms: seq<set<P>>): (r: Result<(seq<DailyRow<P>>, int), StoreError>)
    ensures r.Err? <==> ParseIsoDate(dateStr).None?
    ensures r.Ok? ==> r.value.1 >= nextId
    ensures r.Ok? ==> forall i :: 0 <= i < |r.value.0| ==>
      r.value.0[i] in rows || nextId <= r.value.0[i].id < r.value.1
  {
    match ParseIsoDate(dateStr)
    case None => Err(BadDate(dateStr))
    case Some(d) =>
      var kept := Filter(rows, OtherDay(equipment, d));
      var pieces := Pieces(dateStr, geoms);
      forall i | 0 <= i < |kept| ensures kept[i] in rows {
        FilterMember(rows, OtherDay(equipment, d), kept[i]);
      }
      Ok((kept + NewRows(pieces, equipment, d, nextId), nextId + |pieces|))
  }

  /** The text `str(d)` of any calendar date is stored under that date. */
  lemma StoreIsoDay<P>(rows: seq<DailyRow<P>>, nextId: int, equipment: int, d: Date, geoms: seq<set<P>>)
    requires Valid(d)
    ensures StoreDay(rows, nextId, equipment, IsoDate(d), geoms).Ok?
  {
    IsoDateRoundTrip(d);
  }

  /** Rows that are not of the stored (equipment, date) are kept, in order. */
  lemma StoreOtherDays<P>(rows: seq<DailyRow<P>>, nextId: int, equipment: int, dateStr: string, geoms: seq<set<P>>)
    requires StoreDay(rows, nextId, equipment, dateStr, geoms).Ok?
    ensures var d, rows' := ParseIsoDate(dateStr).value, StoreDay(rows, nextId, equipment, dateStr, geoms).value.0;
      Filter(rows', OtherDay(equipment, d)) == Filter(rows, OtherDay(equipment, d))
  {
    var d := ParseIsoDate(dateStr).value;
    var kept := Filter(rows, OtherDay(equipment, d));
    var added := NewRows(Pieces(dateStr, geoms), equipment, d, nextId);
    FilterAppend(kept, added, OtherDay(equipment, d));
    FilterAll(kept, OtherDay(equipment, d));
    FilterNone(added, OtherDay(equipment, d));
  }

  /** The rows of the stored (equipment, date) are exactly the new pieces. */
  lemma StoreSameDay<P>(rows: seq<DailyRow<P>>, nextId: int, equipment: int, dateStr: string, geoms: seq<set<P>>)
    requires StoreDay(rows, nextId, equipment, dateStr, geoms).Ok?
    ensures var d, rows' := ParseIsoDate(dateStr).value, StoreDay(rows, nextId, equipment, dateStr, geoms).value.0;
      Filter(rows', SameDay(equipment, d)) == NewRows(Pieces(dateStr, geoms), equipment, d, nextId)
  {
    var d := ParseIsoDate(dateStr).value;
    var kept := Filter(rows, OtherDay(equipment, d));
    var added := NewRows(Pieces(dateStr, geoms), equipment, d, nextId);
    FilterAppend(kept, added, SameDay(equipment, d));
    FilterNone(kept, SameDay(equipment, d));
    FilterAll(added, SameDay(equipment, d));
  }

  /** Another equipment's rows are untouched. */
  lemma StoreOtherEquipment<P>(rows: seq<DailyRow<P>>, nextId: int, equipment: int, dateStr: string,
                               geoms: seq<set<P>>, e: int)
    requires StoreDay(rows, nextId, equipment, dateStr, geoms).Ok? && e != equipment
    ensures Of(StoreDay(rows, nextId, equipment, dateStr, geoms).value.0, e) == Of(rows, e)
  {
    var d, rows' := ParseIsoDate(dateStr).value, StoreDay(rows, nextId, equipment, dateStr, geoms).value.0;
    StoreOtherDays(rows, nextId, equipment, dateStr, geoms);
    FilterSubsumed(rows', OtherDay(equipment, d), Owned(e));
    FilterSubsumed(rows, OtherDay(equipment, d), Owned(e));
  }

  // ---------------------------------------------------------------------------
  // What the stored pieces are

  /** A point is listed, by the zones of one day, once per polygon holding it. */
  lemma {:induction false} DayCoverDates<P>(dateStr: string, geoms: seq<set<P>>, x: P)
    ensures CoverDates(DayZones(dateStr, geoms), x) == seq(Covering(geoms, x), _ => dateStr)
  {
    if |geoms| > 0 {
      var n := |geoms| - 1;
      var zs := DayZones(dateStr, geoms);
      assert zs[..n] == DayZones(dateStr, geoms[..n]);
      DayCoverDates(dateStr, geoms[..n], x);
    }
  }

  /** Some polygon of the day holds x. */
  predicate Holds<P>(geoms: seq<set<P>>, x: P) {
    exists j :: 0 <= j < |geoms| && x in geoms[j]
  }

  /** The pieces of one day are disjoint, cover exactly the day's polygons,
      and each lists the date once per polygon covering it, so its
      `pass_count` is that number. */
  lemma DayPieces<P>(dateStr: string, geoms: seq<set<P>>)
    ensures var ps := Pieces(dateStr, geoms);
      && (forall i, j :: 0 <= i < j < |ps| ==> ps[i].geom * ps[j].geom == {})
      && (forall x :: x in Union(ps) <==> Holds(geoms, x))
      && (forall i, x :: 0 <= i < |ps| && x in ps[i].geom ==>
            ps[i].dates == seq(Covering(geoms, x), _ => dateStr) && Covering(geoms, x) >= 1)
  {
    var ps := Pieces(dateStr, geoms);
    var zs := DayZones(dateStr, geoms);
    if |geoms| > 0 {
      AggregatePartition(zs);
      forall x ensures x in Union(zs) <==> Holds(geoms, x) {
        if x in Union(zs) {
          UnionHas(zs, x);
        }
        if Holds(geoms, x) {
          var j :| 0 <= j < |geoms| && x in geoms[j];
          UnionMember(zs, j, x);
        }
      }
      forall i, x | 0 <= i < |ps| && x in ps[i].geom
        ensures ps[i].dates == seq(Covering(geoms, x), _ => dateStr) && Covering(geoms, x) >= 1
      {
        DayCoverDates(dateStr, geoms, x);
        UnionMember(ps, i, x);
        UnionHas(zs, x);
        var j :| 0 <= j < |zs| && x in zs[j].geom;
        CoveringPositive(geoms, j, x);
      }
    }
  }

  /** A polygon holding x makes the count positive. */
  lemma {:induction false} CoveringPositive<P>(geoms: seq<set<P>>, j: int, x: P)
    requires 0 <= j < |geoms| && x in geoms[j]
    ensures Covering(geoms, x) >= 1
  {
    if j < |geoms| - 1 {
      CoveringPositive(geoms[..|geoms| - 1], j, x);
    }
  }

  // ---------------------------------------------------------------------------
  // All dates of a run

  /** The loop over `zones_by_date`; an unreadable date raises and stops it. */
  function StoreDays<P>(rows: seq<DailyRow<P>>, nextId: int, equipment: int,
                        days: seq<(string, seq<set<P>>)>): (r: Result<(seq<DailyRow<P>>, int), StoreError>)
    ensures r.Ok? <==> forall k :: 0 <= k < |days| ==> ParseIsoDate(days[k].0).Some?
    ensures r.Ok? ==> r.value.1 >= nextId
    decreases |days|
  {
    if |days| == 0 then Ok((rows, nextId))
    else
      var step :- StoreDay(rows, nextId, equipment, days[0].0, days[0].1);
      var r := StoreDays(step.0, step.1, equipment, days[1..]);
      assert forall k :: 1 <= k < |days| ==> days[k] == days[1..][k - 1];
      r
  }

  /** A whole run leaves every other equipment's rows as they were. */
  lemma {:induction false} StoreDaysOtherEquipment<P>(rows: seq<DailyRow<P>>, nextId: int, equipment: int,
                                                      days: seq<(string, seq<set<P>>)>, e: int)
    requires StoreDays(rows, nextId, equipment, days).Ok? && e != equipment
    ensures Of(StoreDays(rows, nextId, equipment, days).value.0, e) == Of(rows, e)
    decreases |days|
  {
    if |days| > 0 {
      var step := StoreDay(rows, nextId, equipment, days[0].0, days[0].1).value;
      StoreOtherEquipment(rows, nextId, equipment, days[0].0, days[0].1, e);
      StoreDaysOtherEquipment(step.0, step.1, equipment, days[1..], e);
    }
  }

  /** A whole run leaves the equipment's rows of a date it does not store as
      they were. */
  lemma {:induction false} StoreDaysOtherDates<P>(rows: seq<DailyRow<P>>, nextId: int, equipment: int,
                                                  days: seq<(string, seq<set<P>>)>, d: Date)
    requires StoreDays(rows, nextId, equipment, days).Ok?
    requires forall k :: 0 <= k < |days| ==> ParseIsoDate(days[k].0) != Some(d)
    ensures var rows' := StoreDays(rows, nextId, equipment, days).value.0;
      Filter(rows', SameDay(equipment, d)) == Filter(rows, SameDay(equipment, d))
    decreases |days|
  {
    if |days| > 0 {
      var dk := ParseIsoDate(days[0].0).value;
      var step := StoreDay(rows, nextId, equipment, days[0].0, days[0].1).value;
      StoreOtherDays(rows, nextId, equipment, days[0].0, days[0].1);
      FilterSubsumed(step.0, OtherDay(equipment, dk), SameDay(equipment, d));
      FilterSubsumed(rows, OtherDay(equipment, dk), SameDay(equipment, d));
      StoreDaysOtherDates(step.0, step.1, equipment, days[1..], d);
    }
  }

  /** `process_equipment` ends with `invalidate_cache(eq.id)`: a cache that
      was coherent with the table before the run is coherent with the table
      after it. */
  lemma RunKeepsCacheCoherent<P>(c: Cache<P>, rows: seq<DailyRow<P>>, nextId: int, equipment: int,
                                 days: seq<(string, seq<set<P>>)>)
    requires Coherent(c, rows) && StoreDays(rows, nextId, equipment, days).Ok?
    ensures Coherent(InvalidateCache(c, equipment), StoreDays(rows, nextId, equipment, days).value.0)
  {
    var rows' := StoreDays(rows, nextId, equipment, days).value.0;
    forall e | e != equipment ensures Of(rows', e) == Of(rows, e) {
      StoreDaysOtherEquipment(rows, nextId, equipment, days, e);
    }
    InvalidateRestoresCoherence(c, rows, rows', equipment);
  }
}
