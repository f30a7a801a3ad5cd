/** Naming of the daily broadcast-ephemeris files: `yydoy` and the
    candidate URLs of `v3_candidates` (five RINEX 3 mixed-navigation products,
    then the RINEX 2 GPS file) under the BKG archive's day directory. */
module Rinex {
  import opened Wrappers
  import opened Decimal
  import opened Calendar

  const BkgBase: string := "https://igs.bkg.bund.de/root_ftp/IGS/BRDC/"

  /** The RINEX 3 products tried in order, and their common suffix. */
  const V3Products: seq<string> := ["BRDC00IGS_R_", "BRDC00WRD_R_", "BRDM00DLR_S_", "BRD400DLR_S_", "BRDC00WRD_S_"]
  const V3Suffix: string := "_01D_MN.rnx.gz"

  datatype YearDay = YearDay(yyyy: int, yy: int, ddd: int)

  /** `yydoy(d)`: full year, two-digit year, day of year. */
  function YyDoy(d: Date): (r: YearDay)
    requires Valid(d)
    ensures r.yyyy == d.year && 0 <= r.yy < 100 && (r.yy - d.year) % 100 == 0
    ensures 1 <= r.ddd <= DaysInYear(d.year)
    ensures FromDayOfYear(r.yyyy, r.ddd) == d
  {
    DayOfYearRoundTrip(d);
    TwoDigitYear(d.year);
    YearDay(d.year, d.year % 100, DayOfYear(d))
  }

  lemma {:induction false} TwoDigitYear(year: int)
    ensures 0 <= year % 100 < 100 && (year % 100 - year) % 100 == 0
  {
    assert year % 100 - year == -(year / 100) * 100;
  }

  /** `f"{yyyy}{ddd:03d}0000"`: year, three-digit day, four zeros. */
  function Stamp(yyyy: nat, ddd: nat): string {
    NatToString(yyyy) + FormatInt(ddd, 3) + "0000"
  }

  /** `f"brdc{ddd:03d}0.{yy:02d}n.gz"`, the RINEX 2 GPS navigation file. */
  function V2Name(ddd: int, yy: int): string {
    "brdc" + FormatInt(ddd, 3) + "0." + FormatInt(yy, 2) + "n.gz"
  }

  /** `BKG_BASE.format(yyyy=yyyy, ddd=ddd)`. */
  function BkgDir(yyyy: nat, ddd: nat): string {
    BkgBase + NatToString(yyyy) + "/" + FormatInt(ddd, 3) + "/"
  }

  function V3Candidates(d: Date): (r: seq<string>)
    requires Valid(d)
    ensures |r| == 6
  {
    var t := YyDoy(d);
    var stamp := Stamp(t.yyyy, t.ddd);
    var names := [
      V3Products[0] + stamp + V3Suffix,
      V3Products[1] + stamp + V3Suffix,
      V3Products[2] + stamp + V3Suffix,
      V3Products[3] + stamp + V3Suffix,
      V3Products[4] + stamp + V3Suffix,
      V2Name(t.ddd, t.yy)];
    seq(6, k requires 0 <= k < 6 => BkgDir(t.yyyy, t.ddd) + names[k])
  }

  /** Reads the day back from a URL under the BKG archive: the year directory,
      then the three-digit day-of-year directory. */
  function ReadDay(url: string): Option<Date> {
    if |url| < |BkgBase| || url[..|BkgBase|] != BkgBase then None
    else
      var t := url[|BkgBase|..];
      var k := LeadingDigits(t);
      if k == 0 || |t| < k + 5 || t[k] != '/' || !IsDigits(t[k + 1..k + 4]) || t[k + 4] != '/' then None
      else
        var y, n := ParseNat(t[..k]), ParseNat(t[k + 1..k + 4]);
        if y < MinYear || y > MaxYear || n < 1 || n > DaysInYear(y) then None
        else Some(FromDayOfYear(y, n))
  }

  /** A day of the year fills exactly three digits when padded to three. */
  lemma ThreeDigits(ddd: nat)
    requires ddd < 1000
    ensures |FormatInt(ddd, 3)| == 3 && IsDigits(FormatInt(ddd, 3))
    ensures ParseNat(FormatInt(ddd, 3)) == ddd
  {
    FixedWidth(ddd, 3);
  }

  lemma ReadDayDir(yyyy: nat, ddd: nat, name: string)
    requires MinYear <= yyyy <= MaxYear && 1 <= ddd <= DaysInYear(yyyy)
    ensures ReadDay(BkgDir(yyyy, ddd) + name) == Some(FromDayOfYear(yyyy, ddd))
  {
    var ys, ds := NatToString(yyyy), FormatInt(ddd, 3);
    ThreeDigits(ddd);
    ParseFormat(yyyy);
    var url := BkgDir(yyyy, ddd) + name;
    var t := url[|BkgBase|..];
    assert url == BkgBase + (ys + ("/" + ds + "/" + name));
    assert t == ys + ("/" + ds + "/" + name);
    LeadingDigitsOf(ys, "/" + ds + "/" + name);
    var k := |ys|;
    assert t[..k] == ys;
    assert t[k + 1..k + 4] == ds;
  }

  /** Every candidate lies in the directory of its own day. */
  lemma CandidatesInDayDirectory(d: Date, k: nat)
    requires Valid(d) && k < 6
    ensures ReadDay(V3Candidates(d)[k]) == Some(d)
  {
    var t := YyDoy(d);
    var url := V3Candidates(d)[k];
    assert url == BkgDir(t.yyyy, t.ddd) + url[|BkgDir(t.yyyy, t.ddd)|..];
    ReadDayDir(t.yyyy, t.ddd, url[|BkgDir(t.yyyy, t.ddd)|..]);
  }

  /** So two different days never share a candidate URL. */
  lemma CandidatesDistinctDays(d1: Date, d2: Date, k: nat)
    requires Valid(d1) && Valid(d2) && k < 6
    requires V3Candidates(d1)[k] == V3Candidates(d2)[k]
    ensures d1 == d2
  {
    CandidatesInDayDirectory(d1, k);
    CandidatesInDayDirectory(d2, k);
  }

  /** Reads day of year and two-digit year back from a RINEX 2 file name
      (the full year is left 0). */
  function ReadV2Name(name: string): Option<YearDay> {
    if |name| != 15 || name[..4] != "brdc" || name[7..9] != "0." || name[11..] != "n.gz"
       || !IsDigits(name[4..7]) || !IsDigits(name[9..11]) then None
    else Some(YearDay(0, ParseNat(name[9..11]), ParseNat(name[4..7])))
  }

  lemma V2NameRoundTrip(ddd: nat, yy: nat)
    requires ddd < 1000 && yy < 100
    ensures ReadV2Name(V2Name(ddd, yy)) == Some(YearDay(0, yy, ddd))
  {
    ThreeDigits(ddd);
    NatToStringLength(yy, 2);
    ParsePadded(yy, 2);
    var n := V2Name(ddd, yy);
    assert n[4..7] == FormatInt(ddd, 3);
    assert n[9..11] == FormatInt(yy, 2);
  }

  /** Reads year and day back from a daily stamp `YYYYDDD0000`. */
  function ReadStamp(s: string): Option<YearDay> {
    if |s| < 8 || !IsDigits(s) || s[|s| - 4..] != "0000" then None
    else Some(YearDay(ParseNat(s[..|s| - 7]), 0, ParseNat(s[|s| - 7..|s| - 4])))
  }

  lemma StampRoundTrip(yyyy: nat, ddd: nat)
    requires ddd < 1000
    ensures ReadStamp(Stamp(yyyy, ddd)) == Some(YearDay(yyyy, 0, ddd))
  {
    ThreeDigits(ddd);
    ParseFormat(yyyy);
    var s := Stamp(yyyy, ddd);
    assert s[..|s| - 7] == NatToString(yyyy);
    assert s[|s| - 7..|s| - 4] == FormatInt(ddd, 3);
  }

  /** The part of a URL after its last '/'. */
  function LastSegment(url: string): (r: string)
    ensures '/' !in r
  {
    if |url| == 0 || url[|url| - 1] == '/' then ""
    else LastSegment(url[..|url| - 1]) + [url[|url| - 1]]
  }

  lemma {:induction false} LastSegmentOf(dir: string, name: string)
    requires '/' !in name
    ensures LastSegment(dir + "/" + name) == name
    decreases |name|
  {
    var u := dir + "/" + name;
    if |name| == 0 {
      assert u[|u| - 1] == '/';
    } else {
      var n' := name[..|name| - 1];
      assert u[..|u| - 1] == dir + "/" + n';
      assert '/' !in n' by {
        forall c | c in n' ensures c != '/' {
          assert c in name;
        }
      }
      LastSegmentOf(dir, n');
      assert name == n' + [name[|name| - 1]];
    }
  }

  lemma V2NameHasNoSlash(ddd: nat, yy: nat)
    ensures '/' !in V2Name(ddd, yy)
  {
    ParsePadded(ddd, 3);
    ParsePadded(yy, 2);
  }

  /** The last candidate is the RINEX 2 file of that day. */
  lemma LastCandidateIsV2(d: Date)
    requires Valid(d)
    ensures LastSegment(V3Candidates(d)[5]) == V2Name(YyDoy(d).ddd, YyDoy(d).yy)
  {
    var t := YyDoy(d);
    var dir := BkgBase + NatToString(t.yyyy) + "/" + FormatInt(t.ddd, 3);
    V2NameHasNoSlash(t.ddd, t.yy);
    assert V3Candidates(d)[5] == BkgDir(t.yyyy, t.ddd) + V2Name(t.ddd, t.yy);
    assert V3Candidates(d)[5] == dir + "/" + V2Name(t.ddd, t.yy);
    LastSegmentOf(dir, V2Name(t.ddd, t.yy));
  }
}
