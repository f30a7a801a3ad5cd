/** Bytes and little-endian integers, the vocabulary of Python's
    `struct.pack("<...")`, `int.from_bytes(..., "little")` and `x & 0xFF..`. */
module Bytes {

  type Byte = x: int | 0 <= x < 256

  /** 256^k: one more than the largest unsigned value of a k-byte field. */
  function Pow256(k: nat): (r: nat)
    ensures r >= 1
  {
    if k == 0 then 1 else 256 * Pow256(k - 1)
  }

  /** Smallest value a k-byte two's-complement field cannot hold: 256^k / 2. */
  function Half(k: nat): (r: int)
    requires k > 0
    ensures 2 * r == Pow256(k) && r >= 128
  {
    128 * Pow256(k - 1)
  }

  predicate InUnsignedRange(v: int, k: nat) {
    0 <= v < Pow256(k)
  }

  predicate InSignedRange(v: int, k: nat)
    requires k > 0
  {
    -Half(k) <= v < Half(k)
  }

  /** The k low-order bytes of n, least significant first. Because `%` is
      Euclidean this is also two's complement for negative n, so it models
      both `struct.pack("<i"/"<h"/"<b", v)` on an in-range v and
      `struct.pack("<I"/"<H"/"<B", v & mask)` on any v. */
  function ToLe(n: int, k: nat): (r: seq<Byte>)
    ensures |r| == k
    decreases k
  {
    if k == 0 then [] else [n % 256] + ToLe(n / 256, k - 1)
  }

  /** Unsigned little-endian value of s (`int.from_bytes(s, "little")`). */
  function FromLe(s: seq<Byte>): (r: nat)
    ensures r < Pow256(|s|)
  {
    if |s| == 0 then 0 else s[0] + 256 * FromLe(s[1..])
  }

  /** Two's-complement little-endian value of s (`struct.unpack("<i")` and kin). */
  function FromLeSigned(s: seq<Byte>): (r: int)
    requires |s| > 0
    ensures InSignedRange(r, |s|)
  {
    var u := FromLe(s);
    if u >= Half(|s|) then u - Pow256(|s|) else u
  }

  function Zeros(n: nat): (r: seq<Byte>)
    ensures |r| == n && forall i :: 0 <= i < n ==> r[i] == 0
  {
    seq(n, _ => 0)
  }

  // ---------------------------------------------------------------------------
  // Euclidean division facts

  lemma MulAtLeast(d: int, t: int)
    requires d > 0
    ensures t >= 1 ==> d * t >= d
    ensures t <= -1 ==> d * t <= -d
  {
    if t >= 1 {
      assert d * t == d * (t - 1) + d;
    } else if t <= -1 {
      assert d * (-t) == d * (-t - 1) + d;
    }
  }

  lemma DivModUnique(n: int, d: int, q: int, r: int)
    requires d > 0 && 0 <= r < d && n == d * q + r
    ensures n / d == q && n % d == r
  {
    var q0, r0 := n / d, n % d;
    var t := q0 - q;
    assert d * q0 == d * q + d * t;
    MulAtLeast(d, t);
  }

  lemma ModSplit(n: int, m: nat)
    requires m >= 1
    ensures n % 256 + 256 * ((n / 256) % m) == n % (256 * m)
  {
    var q, r := n / 256, n % 256;
    var a, b := q / m, q % m;
    assert q == m * a + b;
    assert n == (256 * m) * a + (256 * b + r) by {
      assert n == 256 * q + r;
      assert 256 * q == 256 * (m * a) + 256 * b;
      assert 256 * (m * a) == (256 * m) * a;
    }
    assert 256 * b <= 256 * m - 256;
    DivModUnique(n, 256 * m, a, 256 * b + r);
  }

  // ---------------------------------------------------------------------------
  // Round trips

  /** Decoding k encoded bytes gives the value modulo 256^k. */
  lemma {:induction false} LeRoundTrip(n: int, k: nat)
    ensures FromLe(ToLe(n, k)) == n % Pow256(k)
    decreases k
  {
    if k > 0 {
      var s := ToLe(n, k);
      assert s[1..] == ToLe(n / 256, k - 1);
      LeRoundTrip(n / 256, k - 1);
      ModSplit(n, Pow256(k - 1));
    }
  }

  /** Encoding the decoded value of s at |s| bytes gives s back. */
  lemma {:induction false} LeInverse(s: seq<Byte>)
    ensures ToLe(FromLe(s), |s|) == s
  {
    if |s| > 0 {
      var n := FromLe(s);
      DivModUnique(n, 256, FromLe(s[1..]), s[0]);
      LeInverse(s[1..]);
    }
  }

  /** Only the value modulo 256^k matters to a k-byte encoding. */
  lemma LeMod(n: int, k: nat)
    ensures ToLe(n, k) == ToLe(n % Pow256(k), k)
  {
    LeInverse(ToLe(n, k));
    LeRoundTrip(n, k);
  }

  lemma UnsignedRoundTrip(v: int, k: nat)
    requires InUnsignedRange(v, k)
    ensures FromLe(ToLe(v, k)) == v
  {
    LeRoundTrip(v, k);
  }

  lemma SignedRoundTrip(v: int, k: nat)
    requires k > 0 && InSignedRange(v, k)
    ensures FromLeSigned(ToLe(v, k)) == v
  {
    LeRoundTrip(v, k);
    var p := Pow256(k);
    if v < 0 {
      DivModUnique(v, p, -1, v + p);
    } else {
      DivModUnique(v, p, 0, v);
    }
  }

  /** Adding or removing one 256^k does not change the k low-order bytes. */
  lemma LeWrap(u: int, k: nat)
    requires 0 <= u < Pow256(k)
    ensures ToLe(u - Pow256(k), k) == ToLe(u, k)
  {
    LeMod(u - Pow256(k), k);
    DivModUnique(u - Pow256(k), Pow256(k), -1, u);
  }

  lemma SignedInverse(s: seq<Byte>)
    requires |s| > 0
    ensures ToLe(FromLeSigned(s), |s|) == s
  {
    var u, k := FromLe(s), |s|;
    LeInverse(s);
    if u >= Half(k) {
      assert FromLeSigned(s) == u - Pow256(k);
      LeWrap(u, k);
    } else {
      assert FromLeSigned(s) == u;
    }
  }

  lemma Pow256Values()
    ensures Pow256(1) == 0x100 && Pow256(2) == 0x1_0000 && Pow256(4) == 0x1_0000_0000
    ensures Pow256(8) == 0x1_0000_0000_0000_0000
    ensures Half(1) == 0x80 && Half(2) == 0x8000 && Half(4) == 0x8000_0000
  {
    assert Pow256(2) == 256 * Pow256(1);
    assert Pow256(3) == 256 * Pow256(2);
    assert Pow256(4) == 256 * Pow256(3);
    assert Pow256(5) == 256 * Pow256(4);
    assert Pow256(6) == 256 * Pow256(5);
    assert Pow256(7) == 256 * Pow256(6);
    assert Pow256(8) == 256 * Pow256(7);
  }
}
