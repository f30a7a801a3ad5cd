/** The input checks of `forms.py`: the decimal-comma rewriting of
    `LocalizedFloatField`, and what validation leaves in a field's error list
    for the login fields and the analysis settings of `AdminConfigForm`.
    The WTForms behaviour the declarations rely on (`Optional`,
    `DataRequired`, `Length`, `NumberRange`, and the float and integer
    conversions) is written out here; numbers are exact reals, with no
    floating-point rounding. */
module Forms {
  import opened Wrappers
  import opened Decimal
  import opened Text
  import opened PyInt

  /** A submitted value: form text, or a number handed to the form directly. */
  datatype FormValue = Str(text: string) | Num(value: real)

  // ---------------------------------------------------------------------------
  // LocalizedFloatField.process_formdata

  /** `v.replace(",", ".")`. */
  function CommaToDot(s: string): (r: string)
    ensures |r| == |s|
    ensures forall i :: 0 <= i < |s| ==> r[i] == (if s[i] == ',' then '.' else s[i])
  {
    if |s| == 0 then [] else [if s[0] == ',' then '.' else s[0]] + CommaToDot(s[1..])
  }

  /** Rewriting leaves no comma, and a second rewrite changes nothing. */
  lemma {:induction false} CommaToDotIdempotent(s: string)
    ensures forall i :: 0 <= i < |CommaToDot(s)| ==> CommaToDot(s)[i] != ','
    ensures CommaToDot(CommaToDot(s)) == CommaToDot(s)
  {
  }

  /** Text without a comma is left as it is. */
  lemma {:induction false} CommaToDotClean(s: string)
    requires forall i :: 0 <= i < |s| ==> s[i] != ','
    ensures CommaToDot(s) == s
  {
  }

  function LocalizeOne(v: FormValue): FormValue {
    match v
    case Str(t) => Str(CommaToDot(t))
    case Num(x) => Num(x)
  }

  /** The list the field hands on to `FloatField.process_formdata`. */
  function Localize(valuelist: seq<FormValue>): (r: seq<FormValue>)
    ensures |r| == |valuelist|
    ensures forall i :: 0 <= i < |r| ==> r[i] == LocalizeOne(valuelist[i])
  {
    if |valuelist| == 0 then [] else [LocalizeOne(valuelist[0])] + Localize(valuelist[1..])
  }

  /** Numbers pass through, texts keep their length and lose their commas,
      and localizing twice is localizing once. */
  lemma {:induction false} LocalizeKeeps(valuelist: seq<FormValue>)
    ensures forall i :: 0 <= i < |valuelist| && valuelist[i].Num? ==> Localize(valuelist)[i] == valuelist[i]
    ensures forall i :: 0 <= i < |valuelist| && valuelist[i].Str? ==>
      Localize(valuelist)[i].Str? && |Localize(valuelist)[i].text| == |valuelist[i].text|
    ensures Localize(Localize(valuelist)) == Localize(valuelist)
  {
    var once := Localize(valuelist);
    forall i | 0 <= i < |valuelist| ensures LocalizeOne(once[i]) == once[i] {
      if valuelist[i].Str? {
        CommaToDotIdempotent(valuelist[i].text);
      }
    }
  }

  // ---------------------------------------------------------------------------
  // float() and int() on form text

  /** `float` on digits with an optional fraction: "40", "40.", ".5", "40.25". */
  function ReadUnsigned(s: string): (r: Option<real>)
    ensures r.Some? ==> r.value >= 0.0
  {
    var (whole, _, frac) := Partition(s, '.');
    if |whole| + |frac| > 0 && IsDigits(whole) && IsDigits(frac) then
      Some(ParseNat(whole) as real + (ParseNat(frac) as real) / (Pow10(|frac|) as real))
    else None
  }

  /** `float` on stripped text. */
  function SignedReal(t: string): Option<real> {
    match ReadUnsigned(Unsigned(t))
    case None => None
    case Some(x) => Some(if Negative(t) then -x else x)
  }

  /** `float(s)` on form text, with surrounding whitespace ignored. */
  function ReadFloat(s: string): Option<real> {
    SignedReal(Strip(s, PySpace))
  }

  /** Digits without a point read as their whole number. */
  lemma {:induction false} UnsignedDigits(body: string)
    requires |body| > 0 && IsDigits(body)
    ensures ReadUnsigned(body) == Some(ParseNat(body) as real)
  {
    PartitionNone(body, '.');
    var none: string := [];
    assert ParseNat(none) == 0 && Pow10(0) == 1;
  }

  /** `int(x)` on a number: truncation toward zero. */
  function Truncate(x: real): int {
    if x >= 0.0 then x.Floor else -((-x).Floor)
  }

  /** `float` reads every stripped text `int` accepts as the same number. */
  lemma {:induction false} IntAsFloat(t: string)
    requires SignedInt(t).Some?
    ensures SignedReal(t) == Some(SignedInt(t).value as real)
  {
    UnsignedDigits(Unsigned(t));
  }

  /** Wherever `int(s)` succeeds, `float(s)` reads the same number. */
  lemma {:induction false} IntReadsAsFloat(s: string)
    requires ReadInt(s).Some?
    ensures ReadFloat(s) == Some(ReadInt(s).value as real)
  {
    IntAsFloat(Strip(s, PySpace));
  }

  // ---------------------------------------------------------------------------
  // validation

  const NotAFloat: string := "Not a valid float value."
  const NotAnInteger: string := "Not a valid integer value."

  /** `Optional()`: no submitted value, or a first value that is blank text. */
  predicate Absent(raw: seq<FormValue>) {
    |raw| == 0 || (raw[0].Str? && Blank(raw[0].text, PySpace))
  }

  /** What a float field holds after processing, None when conversion failed. */
  function FloatData(raw: seq<FormValue>): Option<real>
    requires |raw| > 0
  {
    match Localize(raw)[0]
    case Str(t) => ReadFloat(t)
    case Num(x) => Some(x)
  }

  /** The error list of a `LocalizedFloatField` declared with `Optional()` and
      `NumberRange(min=lo, max=hi, message=message)`: a failed conversion
      reports itself and fails the range check too. */
  function FloatFieldErrors(raw: seq<FormValue>, lo: real, hi: real, message: string): (errors: seq<string>)
    ensures errors == [] <==> Absent(raw) || (var d := FloatData(raw); d.Some? && lo <= d.value <= hi)
    ensures !Absent(raw) && FloatData(raw).None? ==> errors == [NotAFloat, message]
  {
    if Absent(raw) then []
    else
      var data := FloatData(raw);
      (if data.None? then [NotAFloat] else [])
      + (if data.None? || data.value < lo || data.value > hi then [message] else [])
  }

  lemma {:induction false} CommaToDotSame(whole: string, frac: string)
    ensures CommaToDot(whole + "," + frac) == CommaToDot(whole + "." + frac)
  {
    var c, p := whole + "," + frac, whole + "." + frac;
    forall i | 0 <= i < |c| ensures CommaToDot(c)[i] == CommaToDot(p)[i] {
      if i != |whole| {
        assert c[i] == p[i];
      }
    }
  }

  /** After localization a decimal comma is a decimal point, and neither
      text is blank. */
  lemma {:induction false} LocalizeComma(whole: string, frac: string)
    ensures Localize([Str(whole + "," + frac)]) == Localize([Str(whole + "." + frac)])
    ensures !Absent([Str(whole + "," + frac)]) && !Absent([Str(whole + "." + frac)])
  {
    var c, p := whole + "," + frac, whole + "." + frac;
    assert c[|whole|] == ',' && p[|whole|] == '.';
    CommaToDotSame(whole, frac);
  }

  /** Values that localize alike hold the same data, and texts that are
      blank alike get the same errors. */
  lemma {:induction false} SameLocalized(a: seq<FormValue>, b: seq<FormValue>, lo: real, hi: real, message: string)
    requires |a| > 0 && |b| > 0 && Localize(a)[0] == Localize(b)[0] && Absent(a) == Absent(b)
    ensures FloatData(a) == FloatData(b)
    ensures FloatFieldErrors(a, lo, hi, message) == FloatFieldErrors(b, lo, hi, message)
  {
  }

  /** A decimal comma and a decimal point give the same value and verdict. */
  lemma {:induction false} CommaOrPoint(whole: string, frac: string, lo: real, hi: real, message: string)
    ensures FloatData([Str(whole + "," + frac)]) == FloatData([Str(whole + "." + frac)])
    ensures FloatFieldErrors([Str(whole + "," + frac)], lo, hi, message)
      == FloatFieldErrors([Str(whole + "." + frac)], lo, hi, message)
  {
    LocalizeComma(whole, frac);
    SameLocalized([Str(whole + "," + frac)], [Str(whole + "." + frac)], lo, hi, message);
  }

  /** The analysis settings of `AdminConfigForm`. */
  const EpsMessage: string := "Doit être >= 1"
  const NonNegativeMessage: string := "Doit être >= 0"
  const HourMessage: string := "Doit être entre 0 et 23"

  function EpsMetersErrors(raw: seq<FormValue>): seq<string> {
    FloatFieldErrors(raw, 1.0, 10000.0, EpsMessage)
  }

  function MinSurfaceErrors(raw: seq<FormValue>): seq<string> {
    FloatFieldErrors(raw, 0.0, 100000.0, NonNegativeMessage)
  }

  function AlphaShapeErrors(raw: seq<FormValue>): seq<string> {
    FloatFieldErrors(raw, 0.0, 10.0, NonNegativeMessage)
  }

  /** The three settings: optional, and otherwise inside their inclusive
      ranges. */
  lemma AnalysisRanges(raw: seq<FormValue>)
    ensures EpsMetersErrors(raw) == [] <==> Absent(raw) || (FloatData(raw).Some? && 1.0 <= FloatData(raw).value <= 10000.0)
    ensures MinSurfaceErrors(raw) == [] <==> Absent(raw) || (FloatData(raw).Some? && 0.0 <= FloatData(raw).value <= 100000.0)
    ensures AlphaShapeErrors(raw) == [] <==> Absent(raw) || (FloatData(raw).Some? && 0.0 <= FloatData(raw).value <= 10.0)
  {
  }

  /** Digits, a point and digits read as whole part plus fraction. */
  lemma {:induction false} UnsignedFraction(whole: string, frac: string)
    requires IsDigits(whole) && IsDigits(frac) && |whole| > 0
    ensures ReadUnsigned(whole + "." + frac)
      == Some(ParseNat(whole) as real + (ParseNat(frac) as real) / (Pow10(|frac|) as real))
  {
    PartitionAt(whole, '.', frac);
  }

  lemma {:induction false} PointZeroUnsigned(d: string, p: string)
    requires |d| > 0 && IsDigits(d) && p == d + "." + "0"
    ensures ReadUnsigned(p) == Some(ParseNat(d) as real)
  {
    var zero := "0";
    assert IsDigits(zero) && ParseNat(zero) == 0;
    UnsignedFraction(d, zero);
  }

  lemma {:induction false} PointZeroNoComma(d: string, p: string)
    requires IsDigits(d) && p == d + "." + "0"
    ensures forall i :: 0 <= i < |p| ==> p[i] != ','
  {
    forall i | 0 <= i < |p| ensures p[i] != ',' {
      if i < |d| {
        assert p[i] == d[i];
      }
    }
  }

  /** Digits followed by ".0" read as the number the digits spell. */
  lemma {:induction false} PointZero(d: string) returns (p: string)
    requires |d| > 0 && IsDigits(d)
    ensures p == d + "." + "0"
    ensures ReadFloat(p) == Some(ParseNat(d) as real) && !Absent([Str(p)])
    ensures forall i :: 0 <= i < |p| ==> p[i] != ','
  {
    p := d + "." + "0";
    PointZeroNoComma(d, p);
    PointZeroUnsigned(d, p);
    assert p[0] == d[0] && p[|p| - 1] == '0';
    StripClean(p, PySpace);
    assert !Negative(p) && Unsigned(p) == p;
  }

  /** A whole number written with a decimal comma and a zero fraction, as
      the admin settings accept it: its value, and the eps verdict. */
  lemma {:induction false} CommaWhole(n: nat)
    ensures FloatData([Str(NatToString(n) + "," + "0")]) == Some(n as real)
    ensures EpsMetersErrors([Str(NatToString(n) + "," + "0")]) == [] <==> 1 <= n <= 10000
  {
    var p := PointZero(NatToString(n));
    ParseFormat(n);
    CommaOrPoint(NatToString(n), "0", 1.0, 10000.0, EpsMessage);
    CommaToDotClean(p);
    assert Localize([Str(p)]) == [Str(p)];
  }

  /** What an integer field holds after processing. */
  function IntData(raw: seq<FormValue>): Option<int>
    requires |raw| > 0
  {
    match raw[0]
    case Str(t) => ReadInt(t)
    case Num(x) => Some(Truncate(x))
  }

  /** The error list of `analysis_hour`: `IntegerField` with `Optional()` and
      `NumberRange(min=0, max=23)`. */
  function AnalysisHourErrors(raw: seq<FormValue>): (errors: seq<string>)
    ensures errors == [] <==> Absent(raw) || (var d := IntData(raw); d.Some? && 0 <= d.value <= 23)
  {
    if Absent(raw) then []
    else
      var data := IntData(raw);
      (if data.None? then [NotAnInteger] else [])
      + (if data.None? || data.value < 0 || data.value > 23 then [HourMessage] else [])
  }

  /** Every hour of the day written in decimal is accepted, no later one is. */
  lemma {:induction false} HoursAccepted(h: nat)
    ensures AnalysisHourErrors([Str(NatToString(h))]) == [] <==> h <= 23
  {
    DigitsHour(NatToString(h));
    ParseFormat(h);
  }

  lemma {:induction false} DigitsHour(d: string)
    requires |d| > 0 && IsDigits(d)
    ensures AnalysisHourErrors([Str(d)]) == [] <==> ParseNat(d) <= 23
  {
    DigitsRead(d);
    assert IsDigit(d[0]) && !Absent([Str(d)]);
  }

  // ---------------------------------------------------------------------------
  // LoginForm

  const UsernameRequired: string := "Nom d’utilisateur requis"
  const UsernameLength: string := "Doit faire entre 3 et 64 caractères"
  const PasswordRequired: string := "Mot de passe requis"
  const PasswordLength: string := "Doit faire au moins 3 caractères"

  /** A text field with `DataRequired(message=required)` and
      `Length(min, max, message=lengthMessage)`: missing or blank text fails
      the first check alone, and validation stops there; otherwise the raw
      length, surrounding spaces included, decides. */
  function RequiredTextErrors(raw: Option<string>, required: string, min: nat, max: nat, lengthMessage: string): (errors: seq<string>)
    ensures errors == [] <==> raw.Some? && !Blank(raw.value, PySpace) && min <= |raw.value| <= max
    ensures raw.None? || Blank(raw.value, PySpace) ==> errors == [required]
    ensures raw.Some? && !Blank(raw.value, PySpace) && errors != [] ==> errors == [lengthMessage]
  {
    if raw.None? || Blank(raw.value, PySpace) then [required]
    else if min <= |raw.value| <= max then []
    else [lengthMessage]
  }

  function UsernameErrors(raw: Option<string>): seq<string> {
    RequiredTextErrors(raw, UsernameRequired, 3, 64, UsernameLength)
  }

  function PasswordErrors(raw: Option<string>): seq<string> {
    RequiredTextErrors(raw, PasswordRequired, 3, 128, PasswordLength)
  }

  const TokenLength: string := "Le token doit faire au moins 3 caractères"

  /** `token_global`: `Optional()` then `Length(min=3, max=256)`. A missing
      or blank token is no error; any other is measured as submitted. */
  function TokenErrors(raw: seq<string>): (errors: seq<string>)
    ensures errors == [] <==> |raw| == 0 || Blank(raw[0], PySpace) || 3 <= |raw[0]| <= 256
    ensures errors != [] ==> errors == [TokenLength]
  {
    if |raw| == 0 || Blank(raw[0], PySpace) then []
    else if 3 <= |raw[0]| <= 256 then []
    else [TokenLength]
  }

  /** Spaces alone are refused as missing, whatever their number, and a
      two-character name is refused for its length. */
  lemma {:induction false} LoginChecks(n: nat, name: string)
    requires |name| == 2 && !PySpace(name[0])
    ensures UsernameErrors(Some(Repeat(' ', n))) == [UsernameRequired]
    ensures PasswordErrors(Some(Repeat(' ', n))) == [PasswordRequired]
    ensures UsernameErrors(Some(name)) == [UsernameLength]
  {
    assert Blank(Repeat(' ', n), PySpace);
  }
}
