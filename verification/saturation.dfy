/** Saturating clamps and the integer half of the fixed-width packers in
    test_eph.py (`clamp_i16`, `clamp_i32`, `_iN_scaled`, `_uN_scaled`). The
    float scaling `round(x * 2^-e)` that produces the raw integer is not
    modelled: the packers here start from that integer. */
module Saturation {
  import opened Bytes
  import opened Wrappers

  const Int16Min: int := -32768
  const Int16Max: int := 32767
  const Int32Min: int := -2147483648
  const Int32Max: int := 2147483647

  /** `lo if x < lo else (hi if x > hi else x)`: the in-range value nearest to x. */
  function Clamp(x: int, lo: int, hi: int): (r: int)
    requires lo <= hi
    ensures lo <= r <= hi
    ensures lo <= x <= hi ==> r == x
    ensures forall y :: lo <= y <= hi ==> Dist(r, x) <= Dist(y, x)
  {
    if x < lo then lo else if x > hi then hi else x
  }

  function Dist(a: int, b: int): nat {
    if a >= b then a - b else b - a
  }

  function ClampI16(x: int): (r: int)
    ensures Int16Min <= r <= Int16Max
    ensures Int16Min <= x <= Int16Max ==> r == x
  {
    Clamp(x, Int16Min, Int16Max)
  }

  function ClampI32(x: int): (r: int)
    ensures Int32Min <= r <= Int32Max
    ensures Int32Min <= x <= Int32Max ==> r == x
  {
    Clamp(x, Int32Min, Int32Max)
  }

  /** Clamping never reverses order. */
  lemma ClampMonotone(x: int, y: int, lo: int, hi: int)
    requires lo <= hi && x <= y
    ensures Clamp(x, lo, hi) <= Clamp(y, lo, hi)
  {
  }

  /** Clamping twice is clamping once. */
  lemma ClampIdempotent(x: int, lo: int, hi: int)
    requires lo <= hi
    ensures Clamp(Clamp(x, lo, hi), lo, hi) == Clamp(x, lo, hi)
  {
  }

  datatype WidthError = BadWidth   // ValueError("nbytes must be 1,2,4")

  predicate PackerWidth(nbytes: int) {
    nbytes == 1 || nbytes == 2 || nbytes == 4
  }

  /** Integer half of `_iN_scaled(x, e, nbytes)`: saturate the raw value to the
      signed range of the width, then pack it little-endian. */
  function PackSignedSaturated(raw: int, nbytes: int): (r: Result<seq<Byte>, WidthError>)
    ensures r.Ok? <==> PackerWidth(nbytes)
    ensures r.Ok? ==> |r.value| == nbytes
    ensures r.Ok? ==> FromLeSigned(r.value) == Clamp(raw, -Half(nbytes), Half(nbytes) - 1)
  {
    Pow256Values();
    if nbytes == 4 then
      SignedRoundTrip(ClampI32(raw), 4);
      Ok(ToLe(ClampI32(raw), 4))
    else if nbytes == 2 then
      SignedRoundTrip(ClampI16(raw), 2);
      Ok(ToLe(ClampI16(raw), 2))
    else if nbytes == 1 then
      var v := if -128 > (if 127 < raw then 127 else raw) then -128 else (if 127 < raw then 127 else raw);
      SignedRoundTrip(v, 1);
      Ok(ToLe(v, 1))
    else Err(BadWidth)
  }

  /** Integer half of `_uN_scaled(x, e, nbytes)`: saturate to `[0, 256^n - 1]`. */
  function PackUnsignedSaturated(raw: int, nbytes: int): (r: Result<seq<Byte>, WidthError>)
    ensures r.Ok? <==> PackerWidth(nbytes)
    ensures r.Ok? ==> |r.value| == nbytes
    ensures r.Ok? ==> FromLe(r.value) == Clamp(raw, 0, Pow256(nbytes) - 1)
  {
    Pow256Values();
    if nbytes == 4 || nbytes == 2 || nbytes == 1 then
      var top := if nbytes == 4 then 0xFFFF_FFFF else if nbytes == 2 then 0xFFFF else 0xFF;
      var v := if 0 > (if top < raw then top else raw) then 0 else (if top < raw then top else raw);
      UnsignedRoundTrip(v, nbytes);
      Ok(ToLe(v, nbytes))
    else Err(BadWidth)
  }
}
