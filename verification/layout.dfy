/** Fixed little-endian record layouts: a message payload is a sequence of
    integer fields, each with a width, a signedness and the way an
    out-of-range value is brought into range before packing (saturation, as
    `clamp_i32`/`_uN_scaled` do, or masking, as `x & 0xFFFF` does). Floating
    point fields are carried as the unsigned integer of their bit pattern. */
module Layout {
  import opened Bytes
  import opened Saturation

  datatype Fit = Saturate | Mask

  datatype Field = Field(width: nat, signed: bool, fit: Fit)

  predicate ValidLayout(layout: seq<Field>) {
    forall i :: 0 <= i < |layout| ==> layout[i].width > 0
  }

  function Lo(f: Field): int
    requires f.width > 0
  {
    if f.signed then -Half(f.width) else 0
  }

  function Hi(f: Field): int
    requires f.width > 0
  {
    if f.signed then Half(f.width) - 1 else Pow256(f.width) - 1
  }

  predicate FitsField(f: Field, v: int)
    requires f.width > 0
  {
    Lo(f) <= v <= Hi(f)
  }

  /** The value that is actually written for v. */
  function Normalize(f: Field, v: int): (r: int)
    requires f.width > 0
    ensures FitsField(f, r)
    ensures FitsField(f, v) ==> r == v
  {
    match f.fit
    case Saturate => Clamp(v, Lo(f), Hi(f))
    case Mask =>
      MaskKeepsFitting(f, v);
      if f.signed then FromLeSigned(ToLe(v, f.width)) else v % Pow256(f.width)
  }

  lemma MaskKeepsFitting(f: Field, v: int)
    requires f.width > 0
    ensures FitsField(f, v) && f.signed ==> FromLeSigned(ToLe(v, f.width)) == v
    ensures FitsField(f, v) && !f.signed ==> v % Pow256(f.width) == v
  {
    if FitsField(f, v) {
      if f.signed {
        SignedRoundTrip(v, f.width);
      } else {
        DivModUnique(v, Pow256(f.width), 0, v);
      }
    }
  }

  function Size(layout: seq<Field>): nat {
    if |layout| == 0 then 0 else layout[0].width + Size(layout[1..])
  }

  lemma {:induction false} SizeAppend(a: seq<Field>, b: seq<Field>)
    ensures Size(a + b) == Size(a) + Size(b)
  {
    if |a| > 0 {
      assert (a + b)[1..] == a[1..] + b;
      SizeAppend(a[1..], b);
    } else {
      assert a + b == b;
    }
  }

  lemma ValidAppend(a: seq<Field>, b: seq<Field>)
    requires ValidLayout(a) && ValidLayout(b)
    ensures ValidLayout(a + b)
  {
  }

  predicate FitsLayout(layout: seq<Field>, vals: seq<int>)
    requires ValidLayout(layout)
  {
    |vals| == |layout| && forall i :: 0 <= i < |vals| ==> FitsField(layout[i], vals[i])
  }

  function NormalizeAll(layout: seq<Field>, vals: seq<int>): (r: seq<int>)
    requires ValidLayout(layout) && |vals| == |layout|
    ensures |r| == |vals|
    ensures forall i :: 0 <= i < |r| ==> r[i] == Normalize(layout[i], vals[i])
  {
    seq(|vals|, i requires 0 <= i < |vals| => Normalize(layout[i], vals[i]))
  }

  /** Concatenation of every field packed at its width, in layout order. */
  function Encode(layout: seq<Field>, vals: seq<int>): (r: seq<Byte>)
    requires ValidLayout(layout) && |vals| == |layout|
    ensures |r| == Size(layout)
  {
    if |layout| == 0 then []
    else ToLe(Normalize(layout[0], vals[0]), layout[0].width) + Encode(layout[1..], vals[1..])
  }

  function DecodeField(f: Field, s: seq<Byte>): int
    requires |s| == f.width > 0
  {
    if f.signed then FromLeSigned(s) else FromLe(s)
  }

  /** Sequential reads from offset 0, as the `u4()/i2()/...` helpers do; bytes
      after the last field are ignored. */
  function Decode(layout: seq<Field>, bytes: seq<Byte>): (r: seq<int>)
    requires ValidLayout(layout) && |bytes| >= Size(layout)
    ensures |r| == |layout|
  {
    if |layout| == 0 then []
    else
      var w := layout[0].width;
      [DecodeField(layout[0], bytes[..w])] + Decode(layout[1..], bytes[w..])
  }

  lemma DecodeFieldFits(f: Field, s: seq<Byte>)
    requires |s| == f.width > 0
    ensures FitsField(f, DecodeField(f, s))
  {
  }

  /** Decoded values are always in range. */
  lemma {:induction false} DecodeFits(layout: seq<Field>, bytes: seq<Byte>)
    requires ValidLayout(layout) && |bytes| >= Size(layout)
    ensures FitsLayout(layout, Decode(layout, bytes))
  {
    if |layout| > 0 {
      var w := layout[0].width;
      DecodeFieldFits(layout[0], bytes[..w]);
      DecodeFits(layout[1..], bytes[w..]);
    }
  }

  lemma FieldRoundTrip(f: Field, v: int)
    requires f.width > 0 && FitsField(f, v)
    ensures DecodeField(f, ToLe(v, f.width)) == v
  {
    if f.signed {
      SignedRoundTrip(v, f.width);
    } else {
      UnsignedRoundTrip(v, f.width);
    }
  }

  lemma FieldInverse(f: Field, s: seq<Byte>)
    requires |s| == f.width > 0
    ensures ToLe(DecodeField(f, s), f.width) == s
  {
    if f.signed {
      SignedInverse(s);
    } else {
      LeInverse(s);
    }
  }

  /** Decoding an encoded payload (followed by anything) returns every
      value as it was normalized for writing. */
  lemma {:induction false} DecodeEncode(layout: seq<Field>, vals: seq<int>, rest: seq<Byte>)
    requires ValidLayout(layout) && |vals| == |layout|
    ensures Decode(layout, Encode(layout, vals) + rest) == NormalizeAll(layout, vals)
  {
    if |layout| > 0 {
      var w := layout[0].width;
      var head := ToLe(Normalize(layout[0], vals[0]), w);
      var tail := Encode(layout[1..], vals[1..]);
      var bytes := Encode(layout, vals) + rest;
      assert bytes == head + (tail + rest);
      assert bytes[..w] == head;
      assert bytes[w..] == tail + rest;
      FieldRoundTrip(layout[0], Normalize(layout[0], vals[0]));
      DecodeEncode(layout[1..], vals[1..], rest);
      assert NormalizeAll(layout, vals) == [Normalize(layout[0], vals[0])] + NormalizeAll(layout[1..], vals[1..]);
    }
  }

  /** Re-encoding decoded values reproduces the bytes that were read. */
  lemma {:induction false} EncodeDecode(layout: seq<Field>, bytes: seq<Byte>)
    requires ValidLayout(layout) && |bytes| >= Size(layout)
    ensures Encode(layout, Decode(layout, bytes)) == bytes[..Size(layout)]
  {
    if |layout| > 0 {
      var w := layout[0].width;
      var vals := Decode(layout, bytes);
      DecodeFieldFits(layout[0], bytes[..w]);
      FieldInverse(layout[0], bytes[..w]);
      EncodeDecode(layout[1..], bytes[w..]);
      assert vals[1..] == Decode(layout[1..], bytes[w..]);
      assert bytes[..Size(layout)] == bytes[..w] + bytes[w..][..Size(layout[1..])];
    }
  }

  /** Values already in range are written unchanged. */
  lemma NormalizeFitting(layout: seq<Field>, vals: seq<int>)
    requires ValidLayout(layout) && FitsLayout(layout, vals)
    ensures NormalizeAll(layout, vals) == vals
  {
  }
}
