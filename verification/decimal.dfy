/** Decimal text: Python's `str(n)`, `f"{n:0Wd}"` and `int(s)` restricted to
    ASCII digit strings. */
module Decimal {

  predicate IsDigit(c: char) {
    '0' <= c <= '9'
  }

  predicate IsDigits(s: string) {
    forall i :: 0 <= i < |s| ==> IsDigit(s[i])
  }

  function DigitChar(d: nat): (c: char)
    requires d < 10
    ensures IsDigit(c)
  {
    (('0' as int) + d) as char
  }

  function DigitValue(c: char): (d: nat)
    requires IsDigit(c)
    ensures d < 10
  {
    (c as int) - ('0' as int)
  }

  /** `str(n)` for a non-negative n: no sign, no leading zero. */
  function NatToString(n: nat): (r: string)
    ensures |r| >= 1 && IsDigits(r)
    ensures |r| > 1 ==> r[0] != '0'
  {
    if n < 10 then [DigitChar(n)] else NatToString(n / 10) + [DigitChar(n % 10)]
  }

  /** `int(s)` on a string of ASCII digits (the empty string reads as 0 here;
      callers reject it first, as Python's `int("")` raises). */
  function ParseNat(s: string): nat
    requires IsDigits(s)
  {
    if |s| == 0 then 0 else ParseNat(s[..|s| - 1]) * 10 + DigitValue(s[|s| - 1])
  }

  function Repeat(c: char, n: nat): (r: string)
    ensures |r| == n && forall i :: 0 <= i < n ==> r[i] == c
  {
    seq(n, _ => c)
  }

  /** Left-pad with '0' up to `width` characters; never truncates. */
  function ZeroPad(s: string, width: nat): (r: string)
    ensures |r| == if |s| >= width then |s| else width
  {
    if |s| >= width then s else Repeat('0', width - |s|) + s
  }

  /** `f"{n:0{width}d}"`: the sign counts toward the width, as in Python. */
  function FormatInt(n: int, width: nat): string {
    if n >= 0 then ZeroPad(NatToString(n), width)
    else "-" + ZeroPad(NatToString(-n), if width == 0 then 0 else width - 1)
  }

  /** `str(n)` / `f"{n}"` for any int. */
  function IntToString(n: int): string {
    FormatInt(n, 0)
  }

  lemma {:induction false} ParseFormat(n: nat)
    ensures ParseNat(NatToString(n)) == n
  {
    if n >= 10 {
      var s := NatToString(n);
      assert s[..|s| - 1] == NatToString(n / 10);
      ParseFormat(n / 10);
    }
  }

  lemma {:induction false} ParseLeadingZero(s: string)
    requires IsDigits(s)
    ensures ParseNat("0" + s) == ParseNat(s)
  {
    if |s| > 0 {
      var t := "0" + s;
      assert t[..|t| - 1] == "0" + s[..|s| - 1];
      ParseLeadingZero(s[..|s| - 1]);
    }
  }

  lemma {:induction false} ParseLeadingZeros(k: nat, s: string)
    requires IsDigits(s)
    ensures IsDigits(Repeat('0', k) + s)
    ensures ParseNat(Repeat('0', k) + s) == ParseNat(s)
  {
    if k > 0 {
      ParseLeadingZeros(k - 1, s);
      assert Repeat('0', k) + s == "0" + (Repeat('0', k - 1) + s);
      ParseLeadingZero(Repeat('0', k - 1) + s);
    } else {
      assert Repeat('0', k) + s == s;
    }
  }

  /** Zero padding does not change the value read back. */
  lemma ParsePadded(n: nat, width: nat)
    ensures IsDigits(ZeroPad(NatToString(n), width))
    ensures ParseNat(ZeroPad(NatToString(n), width)) == n
  {
    var s := NatToString(n);
    ParseFormat(n);
    if |s| < width {
      ParseLeadingZeros(width - |s|, s);
    }
  }

  /** Values below 10^w fill at most w digits, so padding to w gives exactly w. */
  lemma {:induction false} NatToStringLength(n: nat, w: nat)
    requires 1 <= w && n < Pow10(w)
    ensures |NatToString(n)| <= w
  {
    if n >= 10 {
      NatToStringLength(n / 10, w - 1);
    }
  }

  /** A value below 10^w printed with `:0{w}d` is exactly w digits that read
      back as the value. */
  lemma FixedWidth(n: nat, w: nat)
    requires 1 <= w && n < Pow10(w)
    ensures |FormatInt(n, w)| == w && IsDigits(FormatInt(n, w))
    ensures ParseNat(FormatInt(n, w)) == n
  {
    NatToStringLength(n, w);
    ParsePadded(n, w);
  }

  function Pow10(k: nat): (r: nat)
    ensures r >= 1
  {
    if k == 0 then 1 else 10 * Pow10(k - 1)
  }

  /** Number of leading ASCII digits. */
  function LeadingDigits(t: string): (k: nat)
    ensures k <= |t| && IsDigits(t[..k])
    ensures k < |t| ==> !IsDigit(t[k])
  {
    if |t| == 0 || !IsDigit(t[0]) then 0
    else
      var k := 1 + LeadingDigits(t[1..]);
      assert t[..k] == [t[0]] + t[1..][..k - 1];
      k
  }

  lemma {:induction false} LeadingDigitsOf(d: string, rest: string)
    requires IsDigits(d) && (|rest| == 0 || !IsDigit(rest[0]))
    ensures LeadingDigits(d + rest) == |d|
  {
    if |d| > 0 {
      assert (d + rest)[1..] == d[1..] + rest;
      LeadingDigitsOf(d[1..], rest);
    } else {
      assert d + rest == rest;
    }
  }
}
