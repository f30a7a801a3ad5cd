/** `_fmt_delta`: an ephemeris age in whole seconds shown as `42s`, `5m07s`
    or `-3h02m`, and a reader that recovers the value it shows. */
module AgeFormat {
  import opened Wrappers
  import opened Decimal

  function Abs(s: int): nat {
    if s < 0 then -s else s
  }

  /** Under a minute: seconds; under an hour: minutes and two-digit seconds;
      otherwise hours and two-digit minutes, the seconds dropped. */
  function FmtDelta(s: int): string {
    var sign := SignText(s < 0);
    var a := Abs(s);
    if a < 60 then sign + NatToString(a) + "s"
    else
      var m, sec := a / 60, a % 60;
      if m < 60 then sign + NatToString(m) + "m" + ZeroPad(NatToString(sec), 2) + "s"
      else sign + NatToString(m / 60) + "h" + ZeroPad(NatToString(m % 60), 2) + "m"
  }

  /** The value the text stands for: exact below an hour, whole minutes above. */
  function Shown(s: int): int {
    var a := Abs(s);
    var v := if a < 3600 then a else a - a % 60;
    if s < 0 then -v else v
  }

  /** The value of what follows the leading number n: `s`, `m` and two
      digits and `s`, or `h` and two digits and `m`. */
  function Magnitude(n: nat, rest: string): Option<nat> {
    if rest == "s" then Some(n)
    else if |rest| == 4 && IsDigits(rest[1..3]) && rest[0] == 'm' && rest[3] == 's' then
      Some(n * 60 + ParseNat(rest[1..3]))
    else if |rest| == 4 && IsDigits(rest[1..3]) && rest[0] == 'h' && rest[3] == 'm' then
      Some(n * 3600 + ParseNat(rest[1..3]) * 60)
    else None
  }

  /** Reads back the three shapes `FmtDelta` produces. */
  function ParseDelta(t: string): Option<int> {
    var neg := |t| > 0 && t[0] == '-';
    var body := if neg then t[1..] else t;
    var k := LeadingDigits(body);
    if k == 0 then None
    else
      match Magnitude(ParseNat(body[..k]), body[k..])
      case None => None
      case Some(v) => Some(Signed(neg, v))
  }

  /** Two-digit field for values below 100 (seconds or minutes below 60). */
  lemma {:induction false} TwoDigits(x: nat)
    requires x < 60
    ensures |ZeroPad(NatToString(x), 2)| == 2
    ensures IsDigits(ZeroPad(NatToString(x), 2))
    ensures ParseNat(ZeroPad(NatToString(x), 2)) == x
  {
    NatToStringLength(x, 2);
    ParsePadded(x, 2);
  }

  /** One shape: digits of n, then `tail`, behind an optional sign. */
  lemma {:induction false} ReadShape(sign: string, n: nat, tail: string)
    requires sign == "" || sign == "-"
    requires |tail| > 0 && !IsDigit(tail[0])
    ensures var t := sign + NatToString(n) + tail;
      var body := if |t| > 0 && t[0] == '-' then t[1..] else t;
      && (|t| > 0 && t[0] == '-' <==> sign == "-")
      && LeadingDigits(body) == |NatToString(n)|
      && body[..|NatToString(n)|] == NatToString(n)
      && body[|NatToString(n)|..] == tail
  {
    var d := NatToString(n);
    var t := sign + d + tail;
    assert IsDigit(d[0]);
    var body := if |t| > 0 && t[0] == '-' then t[1..] else t;
    assert body == d + tail;
    LeadingDigitsOf(d, tail);
  }

  function Signed(neg: bool, v: int): int {
    if neg then -v else v
  }

  function SignText(neg: bool): string {
    if neg then "-" else ""
  }

  /** A signed number followed by a tail that does not start with a digit
      reads as the tail's magnitude for that number. */
  lemma {:induction false} ReadSigned(neg: bool, n: nat, tail: string)
    requires |tail| > 0 && !IsDigit(tail[0])
    ensures ParseDelta(SignText(neg) + NatToString(n) + tail)
         == match Magnitude(n, tail) case None => None case Some(v) => Some(Signed(neg, v))
  {
    ReadShape(SignText(neg), n, tail);
    ParseFormat(n);
  }

  lemma {:induction false} ParseSecondsText(neg: bool, a: nat)
    ensures ParseDelta(SignText(neg) + NatToString(a) + "s") == Some(Signed(neg, a))
  {
    ReadSigned(neg, a, "s");
  }

  /** The two-digit field after the number, between its unit letters. */
  lemma {:induction false} FieldMagnitude(n: nat, unit: char, x: nat, close: char)
    requires x < 60 && ((unit == 'm' && close == 's') || (unit == 'h' && close == 'm'))
    ensures Magnitude(n, [unit] + ZeroPad(NatToString(x), 2) + [close])
         == Some(if unit == 'm' then n * 60 + x else n * 3600 + x * 60)
  {
    TwoDigits(x);
    var p := ZeroPad(NatToString(x), 2);
    var tail := [unit] + p + [close];
    assert tail[1..3] == p && tail[0] == unit && tail[3] == close;
  }

  lemma {:induction false} ParseMinutesText(neg: bool, m: nat, sec: nat)
    requires sec < 60
    ensures ParseDelta(SignText(neg) + NatToString(m) + "m" + ZeroPad(NatToString(sec), 2) + "s")
         == Some(Signed(neg, m * 60 + sec))
  {
    var tail := "m" + ZeroPad(NatToString(sec), 2) + "s";
    assert SignText(neg) + NatToString(m) + "m" + ZeroPad(NatToString(sec), 2) + "s"
        == SignText(neg) + NatToString(m) + tail;
    FieldMagnitude(m, 'm', sec, 's');
    assert tail[0] == 'm' && !IsDigit('m');
    ReadSigned(neg, m, tail);
  }

  lemma {:induction false} ParseHoursText(neg: bool, h: nat, mm: nat)
    requires mm < 60
    ensures ParseDelta(SignText(neg) + NatToString(h) + "h" + ZeroPad(NatToString(mm), 2) + "m")
         == Some(Signed(neg, h * 3600 + mm * 60))
  {
    var tail := "h" + ZeroPad(NatToString(mm), 2) + "m";
    assert SignText(neg) + NatToString(h) + "h" + ZeroPad(NatToString(mm), 2) + "m"
        == SignText(neg) + NatToString(h) + tail;
    FieldMagnitude(h, 'h', mm, 'm');
    assert tail[0] == 'h' && !IsDigit('h');
    ReadSigned(neg, h, tail);
  }

  /** Reading the text back gives the shown value. */
  lemma {:induction false} ParseFmt(s: int)
    ensures ParseDelta(FmtDelta(s)) == Some(Shown(s))
  {
    if Abs(s) < 60 {
      ParseSecondsText(s < 0, Abs(s));
    } else if Abs(s) < 3600 {
      ParseFmtMinutes(s);
    } else {
      ParseFmtHours(s);
    }
  }

  lemma {:induction false} ParseFmtMinutes(s: int)
    requires 60 <= Abs(s) < 3600
    ensures ParseDelta(FmtDelta(s)) == Some(Shown(s))
  {
    var a := Abs(s);
    var m, sec := a / 60, a % 60;
    MinuteSplit(a);
    assert FmtDelta(s) == SignText(s < 0) + NatToString(m) + "m" + ZeroPad(NatToString(sec), 2) + "s";
    assert Shown(s) == Signed(s < 0, m * 60 + sec);
    ParseMinutesText(s < 0, m, sec);
  }

  lemma {:induction false} ParseFmtHours(s: int)
    requires 3600 <= Abs(s)
    ensures ParseDelta(FmtDelta(s)) == Some(Shown(s))
  {
    var a := Abs(s);
    var m := a / 60;
    var h, mm := m / 60, m % 60;
    MinuteSplit(a);
    assert FmtDelta(s) == SignText(s < 0) + NatToString(h) + "h" + ZeroPad(NatToString(mm), 2) + "m";
    assert Shown(s) == Signed(s < 0, h * 3600 + mm * 60);
    ParseHoursText(s < 0, h, mm);
  }

  lemma MinuteSplit(a: nat)
    ensures a == (a / 60) * 60 + a % 60
    ensures a - a % 60 == ((a / 60) / 60) * 3600 + ((a / 60) % 60) * 60
    ensures a < 3600 <==> a / 60 < 60
  {
    var m := a / 60;
    assert m == (m / 60) * 60 + m % 60;
  }

  /** Distinct ages below an hour never share a text; above an hour the text
      names the minute. */
  lemma FmtInjectiveBelowHour(s1: int, s2: int)
    requires Abs(s1) < 3600 && Abs(s2) < 3600 && FmtDelta(s1) == FmtDelta(s2)
    ensures s1 == s2
  {
    ParseFmt(s1);
    ParseFmt(s2);
  }
}
