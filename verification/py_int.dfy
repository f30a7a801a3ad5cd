/** Python's `int()` on text, as `update.py` reads version fields and the
    integer fields of `forms.py` read their input: whitespace around the
    number is ignored, then an optional sign and a run of ASCII digits. */
module PyInt {
  import opened Wrappers
  import opened Decimal
  import opened Text

  /** The text after a leading sign, if any. */
  function Unsigned(t: string): string {
    if |t| > 0 && (t[0] == '-' || t[0] == '+') then t[1..] else t
  }

  predicate Negative(t: string) {
    |t| > 0 && t[0] == '-'
  }

  /** `int` on text already stripped of whitespace. */
  function SignedInt(t: string): (r: Option<int>)
    ensures r.Some? <==> |Unsigned(t)| > 0 && IsDigits(Unsigned(t))
    ensures r.Some? && r.value < 0 ==> Negative(t)
  {
    var body := Unsigned(t);
    if |body| > 0 && IsDigits(body) then
      var n: int := ParseNat(body);
      Some(if Negative(t) then -n else n)
    else None
  }

  /** `int(s)`; None where it raises ValueError. */
  function ReadInt(s: string): Option<int> {
    SignedInt(Strip(s, PySpace))
  }

  /** Digits with nothing around them read as their number. */
  lemma {:induction false} DigitsRead(d: string)
    requires |d| > 0 && IsDigits(d)
    ensures ReadInt(d) == Some(ParseNat(d))
  {
    assert IsDigit(d[0]) && IsDigit(d[|d| - 1]);
    StripClean(d, PySpace);
    assert !Negative(d) && Unsigned(d) == d;
  }

  /** The decimal text of a whole number reads back as that number. */
  lemma {:induction false} ReadIntNat(n: nat)
    ensures ReadInt(NatToString(n)) == Some(n)
  {
    DigitsRead(NatToString(n));
    ParseFormat(n);
  }

  /** `int(str(n)) == n` for every integer, negative ones included. */
  lemma {:induction false} ReadIntText(n: int)
    ensures ReadInt(IntToString(n)) == Some(n)
  {
    if n >= 0 {
      assert IntToString(n) == NatToString(n);
      ReadIntNat(n);
    } else {
      var d := NatToString(-n);
      var s := IntToString(n);
      assert s == "-" + d;
      assert s[|s| - 1] == d[|d| - 1] && IsDigit(d[|d| - 1]);
      StripClean(s, PySpace);
      assert Negative(s) && Unsigned(s) == d;
      ParseFormat(-n);
    }
  }

  /** Whitespace around the number changes nothing. */
  lemma {:induction false} ReadIntSpaced(pre: string, t: string, post: string)
    requires Blank(pre, PySpace) && Blank(post, PySpace)
    requires |t| > 0 && !PySpace(t[0]) && !PySpace(t[|t| - 1])
    ensures ReadInt(pre + t + post) == ReadInt(t)
  {
    StripAround(pre, t, post, PySpace);
    StripClean(t, PySpace);
  }

  /** A character `int` has no use for: not whitespace, not a sign, not a
      digit, and not the underscore or a non-ASCII digit, which Python also
      reads. */
  predicate Foreign(c: char) {
    !PySpace(c) && !IsDigit(c) && c != '+' && c != '-' && c != '_' && c as int < 128
  }

  /** One foreign character anywhere makes `int` fail. */
  lemma {:induction false} ForeignRejected(s: string, i: int)
    requires 0 <= i < |s| && Foreign(s[i])
    ensures ReadInt(s) == None
  {
    var k := StripKeeps(s, PySpace, i);
    ForeignUnsigned(Strip(s, PySpace), k);
  }

  lemma {:induction false} ForeignUnsigned(t: string, k: int)
    requires 0 <= k < |t| && Foreign(t[k])
    ensures SignedInt(t) == None
  {
    var body := Unsigned(t);
    if body == t {
      assert !IsDigit(body[k]);
    } else {
      assert k > 0 && body[k - 1] == t[k];
    }
  }
}
