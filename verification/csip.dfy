/** CASIC binary framing as built by `csip_pack` in test_eph.py:
      BA CE | U2 length | U1 class | U1 id | payload (padded to 4) | U4 checksum
    and the header checks shared by the frame decoders. */
module Csip {
  import opened Bytes
  import opened Wrappers

  const Sync: seq<Byte> := [0xBA, 0xCE]
  const Mod32: int := 0x1_0000_0000

  /** Zero-pad to a multiple of four bytes. */
  function PadTo4(p: seq<Byte>): (r: seq<Byte>)
    ensures |r| % 4 == 0 && |p| <= |r| < |p| + 4
    ensures r[..|p|] == p && forall i :: |p| <= i < |r| ==> r[i] == 0
    ensures |p| % 4 == 0 ==> r == p
  {
    if |p| % 4 == 0 then p else p + Zeros(4 - |p| % 4)
  }

  /** The checksum loop: every little-endian 32-bit word is added and the
      running sum is reduced modulo 2^32 after each addition. */
  function AddWords(acc: int, p: seq<Byte>): int
    requires |p| % 4 == 0
    decreases |p|
  {
    if |p| == 0 then acc else AddWords((acc + FromLe(p[..4])) % Mod32, p[4..])
  }

  /** Plain (unreduced) sum of the little-endian 32-bit words of p. */
  function SumWords(p: seq<Byte>): nat
    requires |p| % 4 == 0
    decreases |p|
  {
    if |p| == 0 then 0 else FromLe(p[..4]) + SumWords(p[4..])
  }

  lemma ModAddLeft(a: int, b: int, m: int)
    requires m > 0
    ensures (a % m + b) % m == (a + b) % m
  {
    var q2, r2 := (a % m + b) / m, (a % m + b) % m;
    assert a + b == m * (a / m + q2) + r2 by {
      assert a == m * (a / m) + a % m;
      assert a % m + b == m * q2 + r2;
      assert m * (a / m + q2) == m * (a / m) + m * q2;
    }
    DivModUnique(a + b, m, a / m + q2, r2);
  }

  /** Reducing after every word is the same as reducing the whole sum once. */
  lemma {:induction false} AddWordsIsSum(acc: int, p: seq<Byte>)
    requires |p| % 4 == 0 && 0 <= acc < Mod32
    ensures AddWords(acc, p) == (acc + SumWords(p)) % Mod32
    decreases |p|
  {
    if |p| == 0 {
      DivModUnique(acc, Mod32, 0, acc);
    } else {
      var w := FromLe(p[..4]);
      AddWordsIsSum((acc + w) % Mod32, p[4..]);
      ModAddLeft(acc + w, SumWords(p[4..]), Mod32);
    }
  }

  /** Seed of the `csip_pack` checksum: id in the top byte, class below it. */
  function CsipSeed(cls: Byte, id: Byte, length: nat): nat {
    id * 0x100_0000 + cls * 0x1_0000 + length
  }

  function CsipChecksum(cls: Byte, id: Byte, padded: seq<Byte>): int
    requires |padded| % 4 == 0
  {
    AddWords(CsipSeed(cls, id, |padded|), padded)
  }

  datatype PackError = LengthOverflow

  /** The byte layout shared by `csip_pack` and `build_casic_frame`. */
  function Assemble(cls: Byte, id: Byte, length: nat, body: seq<Byte>, ck: int): seq<Byte> {
    Sync + ToLe(length, 2) + [cls, id] + body + ToLe(ck, 4)
  }

  lemma AssembleParts(cls: Byte, id: Byte, length: nat, body: seq<Byte>, ck: int)
    ensures var f := Assemble(cls, id, length, body, ck);
      && |f| == |body| + 10
      && f[..2] == Sync && f[2..4] == ToLe(length, 2) && f[4] == cls && f[5] == id
      && f[6..6 + |body|] == body && f[6 + |body|..] == ToLe(ck, 4)
  {
  }

  /** `csip_pack(cls, id, payload)`. `struct.pack("<H", length)` raises when the
      padded length does not fit 16 bits; that is the error case. */
  function CsipPack(cls: Byte, id: Byte, payload: seq<Byte>): (r: Result<seq<Byte>, PackError>)
    ensures r.Ok? <==> |PadTo4(payload)| <= 0xFFFF
  {
    var padded := PadTo4(payload);
    if |padded| > 0xFFFF then Err(LengthOverflow)
    else Ok(Assemble(cls, id, |padded|, padded, CsipChecksum(cls, id, padded)))
  }

  /** The longest payload `csip_pack` accepts: longer ones pad past the U2
      length field. */
  const MaxPayload: nat := 0xFFFC

  lemma MaxPayloadPacks(cls: Byte, id: Byte, payload: seq<Byte>)
    ensures CsipPack(cls, id, payload).Ok? <==> |payload| <= MaxPayload
  {
  }

  /** Layout of a packed frame: sync, LE16 padded length, class, id, the
      zero-padded payload, then the LE32 checksum
      (id<<24) + (class<<16) + padded length + every payload word, mod 2^32. */
  lemma CsipPackLayout(cls: Byte, id: Byte, payload: seq<Byte>)
    requires |payload| <= MaxPayload
    ensures var f := CsipPack(cls, id, payload).value;
      && FramesPayload(f, cls, id, PadTo4(payload))
      && |f| == |PadTo4(payload)| + 10
      && FromLe(f[|f| - 4..]) ==
           (CsipSeed(cls, id, |PadTo4(payload)|) + SumWords(PadTo4(payload))) % Mod32
  {
    var padded := PadTo4(payload);
    var ck := CsipChecksum(cls, id, padded);
    AssembleParts(cls, id, |padded|, padded, ck);
    CsipChecksumInRange(cls, id, padded);
    Pow256Values();
    UnsignedRoundTrip(ck, 4);
    UnsignedRoundTrip(|padded|, 2);
  }

  lemma CsipChecksumInRange(cls: Byte, id: Byte, padded: seq<Byte>)
    requires |padded| % 4 == 0 && |padded| <= 0xFFFF
    ensures 0 <= CsipChecksum(cls, id, padded) < Mod32
    ensures CsipChecksum(cls, id, padded) == (CsipSeed(cls, id, |padded|) + SumWords(padded)) % Mod32
  {
    Pow256Values();
    AddWordsIsSum(CsipSeed(cls, id, |padded|), padded);
  }

  /** Sync bytes, LE16 length, class, id, then the payload. */
  predicate FramesPayload(frame: seq<Byte>, cls: Byte, id: Byte, payload: seq<Byte>) {
    && |frame| >= 6 + |payload|
    && frame[..2] == Sync
    && FromLe(frame[2..4]) == |payload|
    && frame[4] == cls && frame[5] == id
    && frame[6..6 + |payload|] == payload
  }

  /** Sync, then a length field that accounts for every byte of the frame:
      what a reader needs to cut a stream into frames. */
  predicate Delimited(frame: seq<Byte>) {
    |frame| >= 10 && frame[..2] == Sync && |frame| == FromLe(frame[2..4]) + 10
  }

  /** A complete, self-consistent `csip_pack` frame: length field a multiple
      of four, nothing after the checksum, checksum correct. */
  predicate WellFormed(frame: seq<Byte>) {
    && |frame| >= 10
    && frame[..2] == Sync
    && var len := FromLe(frame[2..4]);
    && |frame| == len + 10
    && len % 4 == 0
    && FromLe(frame[len + 6..]) == CsipChecksum(frame[4], frame[5], frame[6..len + 6])
  }

  /** Every packed frame is well formed. */
  lemma PackWellFormed(cls: Byte, id: Byte, payload: seq<Byte>)
    requires |payload| <= MaxPayload
    ensures WellFormed(CsipPack(cls, id, payload).value)
  {
    var padded := PadTo4(payload);
    var f := CsipPack(cls, id, payload).value;
    CsipPackLayout(cls, id, payload);
    CsipChecksumInRange(cls, id, padded);
    Pow256Values();
    UnsignedRoundTrip(CsipChecksum(cls, id, padded), 4);
    AssembleParts(cls, id, |padded|, padded, CsipChecksum(cls, id, padded));
  }

  /** Conversely a well-formed frame is exactly what `csip_pack` rebuilds
      from its class, id and payload: packing is byte-for-byte reproducible. */
  lemma RepackWellFormed(frame: seq<Byte>)
    requires WellFormed(frame)
    ensures CsipPack(frame[4], frame[5], frame[6..|frame| - 4]) == Ok(frame)
  {
    var len := FromLe(frame[2..4]);
    var payload := frame[6..|frame| - 4];
    assert |payload| == len;
    var ck := CsipChecksum(frame[4], frame[5], payload);
    assert PadTo4(payload) == payload;
    LeInverse(frame[2..4]);
    LeInverse(frame[len + 6..]);
    assert frame == Sync + frame[2..4] + [frame[4], frame[5]] + payload + frame[len + 6..];
  }

  // ---------------------------------------------------------------------------
  // Header checks shared by decode_aid_ini, decode_gpseph and decode_bdseph

  datatype DecodeError =
    | NotCsipFrame            // fewer than 6 bytes, or no BA CE sync
    | WrongMessage(cls: Byte, id: Byte)
    | Truncated               // struct.unpack ran past the payload
    | WrongSize               // struct.unpack given a payload of another size

  datatype Header = Header(length: nat, cls: Byte, id: Byte)

  function ReadHeader(frame: seq<Byte>): (r: Result<Header, DecodeError>)
    ensures r.Ok? <==> |frame| >= 6 && frame[..2] == Sync
    ensures r.Ok? ==> r.value == Header(FromLe(frame[2..4]), frame[4], frame[5])
  {
    if |frame| >= 6 && frame[..2] == Sync then Ok(Header(FromLe(frame[2..4]), frame[4], frame[5]))
    else Err(NotCsipFrame)
  }

  /** `frame[6:6+length]`: Python slicing stops at the end of the frame. */
  function PayloadSlice(frame: seq<Byte>, length: nat): (r: seq<Byte>)
    requires |frame| >= 6
    ensures |r| == if 6 + length <= |frame| then length else |frame| - 6
    ensures r == frame[6..|r| + 6]
  {
    if 6 + length <= |frame| then frame[6..6 + length] else frame[6..]
  }

  /** The header and payload a decoder reads from a packed frame are the ones packed. */
  lemma ReadPacked(cls: Byte, id: Byte, payload: seq<Byte>)
    requires |payload| <= MaxPayload
    ensures var f := CsipPack(cls, id, payload).value;
      && ReadHeader(f) == Ok(Header(|PadTo4(payload)|, cls, id))
      && PayloadSlice(f, |PadTo4(payload)|) == PadTo4(payload)
  {
    CsipPackLayout(cls, id, payload);
  }
}
