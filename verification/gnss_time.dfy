/** GPS and BeiDou time on whole seconds: week number and time of week
    (`gps_week_tow`, `bdt_week_tow`), the clock reference time `toc` and the
    week fallback used when building ephemerides, and the weekly wrap of an
    ephemeris age (`_wrap_week_delta`). The source computes on float seconds;
    here every instant is an integer count of seconds. */
module GnssTime {
  import Bytes

  const WeekSeconds: int := 7 * 86400
  const HalfWeek: int := WeekSeconds / 2

  /** `datetime(1980, 1, 6)` and `datetime(2006, 1, 1)` as Unix seconds. */
  const GpsEpochUnix: int := 315964800
  const BdtEpochUnix: int := 1136073600

  datatype WeekTow = WeekTow(week: int, tow: int)

  /** `w = int(dt_s // 604800); tow = dt_s - w * 604800`. Floor division, so
      instants before the epoch get a negative week and a non-negative tow. */
  function SplitWeek(elapsed: int): (r: WeekTow)
    ensures elapsed == r.week * WeekSeconds + r.tow
    ensures 0 <= r.tow < WeekSeconds
  {
    WeekTow(elapsed / WeekSeconds, elapsed - (elapsed / WeekSeconds) * WeekSeconds)
  }

  /** The split is the only one with a time of week in range. */
  lemma SplitWeekUnique(elapsed: int, w: int, t: int)
    requires elapsed == w * WeekSeconds + t && 0 <= t < WeekSeconds
    ensures SplitWeek(elapsed) == WeekTow(w, t)
  {
    Bytes.DivModUnique(elapsed, WeekSeconds, w, t);
  }

  /** Later instants never have an earlier week. */
  lemma SplitWeekMonotone(a: int, b: int)
    requires a <= b
    ensures SplitWeek(a).week <= SplitWeek(b).week
  {
    var wa, wb := SplitWeek(a).week, SplitWeek(b).week;
    Bytes.MulAtLeast(WeekSeconds, wa - wb);
    assert wa * WeekSeconds == wb * WeekSeconds + (wa - wb) * WeekSeconds;
  }

  function GpsWeekTow(nowUnix: int): (r: WeekTow)
    ensures nowUnix - GpsEpochUnix == r.week * WeekSeconds + r.tow && 0 <= r.tow < WeekSeconds
  {
    SplitWeek(nowUnix - GpsEpochUnix)
  }

  function BdtWeekTow(nowUnix: int): (r: WeekTow)
    ensures nowUnix - BdtEpochUnix == r.week * WeekSeconds + r.tow && 0 <= r.tow < WeekSeconds
  {
    SplitWeek(nowUnix - BdtEpochUnix)
  }

  /** The two time scales differ by a whole number of weeks (1356) plus a
      fixed offset: BDT week w starts 1356 GPS weeks after GPS week w. */
  lemma GpsBdtWeekOffset(nowUnix: int)
    ensures BdtEpochUnix - GpsEpochUnix == 1356 * WeekSeconds
    ensures GpsWeekTow(nowUnix) == WeekTow(BdtWeekTow(nowUnix).week + 1356, BdtWeekTow(nowUnix).tow)
  {
    var b := BdtWeekTow(nowUnix);
    SplitWeekUnique(nowUnix - GpsEpochUnix, b.week + 1356, b.tow);
  }

  /** `toc = max(0, seconds since epoch) % 604800`: a clock reference before
      the epoch is pinned to the start of week 0. */
  function Toc(sinceEpoch: int): (r: int)
    ensures 0 <= r < WeekSeconds
    ensures sinceEpoch <= 0 ==> r == 0
    ensures sinceEpoch >= 0 ==> r == SplitWeek(sinceEpoch).tow
  {
    if sinceEpoch < 0 then 0 else sinceEpoch % WeekSeconds
  }

  /** Week of the ephemeris when the navigation data has no week field:
      GPS divides the unclamped offset (test_eph.py:473), BeiDou the clamped
      one (test_eph.py:747). */
  function GpsWeekFallback(sinceEpoch: int): int {
    SplitWeek(sinceEpoch).week
  }

  function BdsWeekFallback(sinceEpoch: int): int {
    SplitWeek(if sinceEpoch < 0 then 0 else sinceEpoch).week
  }

  /** Week fallback and toc together rebuild the instant (clamped at the epoch). */
  lemma FallbackRebuilds(sinceEpoch: int)
    ensures BdsWeekFallback(sinceEpoch) * WeekSeconds + Toc(sinceEpoch) == if sinceEpoch < 0 then 0 else sinceEpoch
    ensures sinceEpoch >= 0 ==> GpsWeekFallback(sinceEpoch) * WeekSeconds + Toc(sinceEpoch) == sinceEpoch
  {
  }

  /** Before the GPS epoch the two fallbacks disagree: GPS gives a negative
      week, BeiDou week 0. */
  lemma FallbackBeforeEpoch(sinceEpoch: int)
    requires sinceEpoch < 0
    ensures GpsWeekFallback(sinceEpoch) < 0 && BdsWeekFallback(sinceEpoch) == 0
  {
    SplitWeekUnique(0, 0, 0);
    Bytes.MulAtLeast(WeekSeconds, GpsWeekFallback(sinceEpoch));
  }

  /** `((s + 302400) % 604800) - 302400`: the representative of s modulo one
      week that lies in [-3.5 days, +3.5 days). */
  function WrapWeekDelta(s: int): (r: int)
    ensures -HalfWeek <= r < HalfWeek
    ensures (r - s) % WeekSeconds == 0
  {
    var r := (s + HalfWeek) % WeekSeconds - HalfWeek;
    Bytes.DivModUnique(r - s, WeekSeconds, -((s + HalfWeek) / WeekSeconds), 0);
    r
  }

  /** The wrap is the unique such representative; in particular it does not
      move a delta that is already within half a week. */
  lemma WrapUnique(s: int, r: int, k: int)
    requires -HalfWeek <= r < HalfWeek && r == s + k * WeekSeconds
    ensures WrapWeekDelta(s) == r
  {
    Bytes.DivModUnique(s + HalfWeek, WeekSeconds, -k, r + HalfWeek);
  }

  lemma WrapSmall(s: int)
    requires -HalfWeek <= s < HalfWeek
    ensures WrapWeekDelta(s) == s
  {
    WrapUnique(s, s, 0);
  }

  /** Ephemeris age `_wrap_week_delta(now - (week * 604800 + t))`. */
  function Age(now: int, week: int, t: int): (r: int)
    ensures -HalfWeek <= r < HalfWeek
  {
    WrapWeekDelta(now - (week * WeekSeconds + t))
  }

  /** The week number cannot change the displayed age: a wrong or rolled-over
      week (for instance one masked to 16 bits) still gives the true age. */
  lemma AgeIgnoresWeek(now: int, w1: int, w2: int, t: int)
    ensures Age(now, w1, t) == Age(now, w2, t)
  {
    var r := Age(now, w2, t);
    var s1, s2 := now - (w1 * WeekSeconds + t), now - (w2 * WeekSeconds + t);
    var k := (r - s2) / WeekSeconds;
    assert r == s2 + k * WeekSeconds;
    assert s2 == s1 + (w1 - w2) * WeekSeconds;
    WrapUnique(s1, r, k + (w1 - w2));
  }
}
