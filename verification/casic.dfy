/** CASIC frames as `casic.py` builds them: a checksum whose seed carries the
    class in its top byte and the unpadded length in its low half, frames that
    carry the payload unpadded, the 72-byte GPS ephemeris payload, and the
    default CDDIS URL of a day's RINEX 2 navigation file. */
module Casic {
  import opened Bytes
  import opened Wrappers
  import opened Csip
  import opened Decimal
  import Rinex
  import Calendar

  // ---------------------------------------------------------------------------
  // casic_checksum32 and build_casic_frame

  /** `(cls << 24) | (msg_id << 16) | (plen & 0xFFFF)`; the three parts occupy
      disjoint bits, so the `|` is a sum. */
  function CasicSeed(cls: Byte, id: Byte, plen: nat): (r: nat)
    ensures r < Mod32
    ensures r / 0x100_0000 == cls && (r / 0x1_0000) % 0x100 == id && r % 0x1_0000 == plen % 0x1_0000
  {
    var r := cls * 0x100_0000 + id * 0x1_0000 + plen % 0x1_0000;
    DivModUnique(r, 0x100_0000, cls, id * 0x1_0000 + plen % 0x1_0000);
    DivModUnique(r, 0x1_0000, cls * 0x100 + id, plen % 0x1_0000);
    DivModUnique(cls * 0x100 + id, 0x100, cls, id);
    r
  }

  /** The checksum as an integer: the seed plus every little-endian word of
      the zero-padded payload, modulo 2^32. */
  function CasicChecksum(cls: Byte, id: Byte, payload: seq<Byte>): (r: int)
    ensures 0 <= r < Mod32
    ensures r == (CasicSeed(cls, id, |payload|) + SumWords(PadTo4(payload))) % Mod32
  {
    AddWordsIsSum(CasicSeed(cls, id, |payload|), PadTo4(payload));
    AddWords(CasicSeed(cls, id, |payload|), PadTo4(payload))
  }

  /** `casic_checksum32`: the checksum as 4 little-endian bytes. */
  function CasicChecksum32(cls: Byte, id: Byte, payload: seq<Byte>): (r: seq<Byte>)
    ensures |r| == 4 && FromLe(r) == CasicChecksum(cls, id, payload)
  {
    Pow256Values();
    UnsignedRoundTrip(CasicChecksum(cls, id, payload), 4);
    ToLe(CasicChecksum(cls, id, payload), 4)
  }

  /** `build_casic_frame`. `struct.pack("<H", len(payload))` raises when the
      payload does not fit 16 bits. */
  function BuildCasicFrame(cls: Byte, id: Byte, payload: seq<Byte>): (r: Result<seq<Byte>, PackError>)
    ensures r.Ok? <==> |payload| <= 0xFFFF
  {
    if |payload| > 0xFFFF then Err(LengthOverflow)
    else Ok(Assemble(cls, id, |payload|, payload, CasicChecksum(cls, id, payload)))
  }

  /** Layout of a built frame: sync, LE16 of the unpadded length, class, id,
      the payload as given, then the checksum bytes. */
  lemma BuildCasicFrameLayout(cls: Byte, id: Byte, payload: seq<Byte>)
    requires |payload| <= 0xFFFF
    ensures var f := BuildCasicFrame(cls, id, payload).value;
      && FramesPayload(f, cls, id, payload)
      && |f| == |payload| + 10
      && Delimited(f)
      && f[|payload| + 6..] == CasicChecksum32(cls, id, payload)
  {
    var ck := CasicChecksum(cls, id, payload);
    AssembleParts(cls, id, |payload|, payload, ck);
    Pow256Values();
    UnsignedRoundTrip(|payload|, 2);
  }

  datatype CasicMessage = CasicMessage(cls: Byte, id: Byte, payload: seq<Byte>)

  datatype CasicError = NotCasicFrame | LengthMismatch | BadChecksum

  /** Reference reader for a CASIC frame: sync, a length field that accounts
      for every byte, and a checksum that matches. */
  function ParseCasicFrame(frame: seq<Byte>): (r: Result<CasicMessage, CasicError>)
    ensures r.Ok? ==> Delimited(frame)
  {
    if |frame| < 10 || frame[..2] != Sync then Err(NotCasicFrame)
    else if |frame| != FromLe(frame[2..4]) + 10 then Err(LengthMismatch)
    else
      var payload := frame[6..|frame| - 4];
      if FromLe(frame[|frame| - 4..]) != CasicChecksum(frame[4], frame[5], payload) then Err(BadChecksum)
      else Ok(CasicMessage(frame[4], frame[5], payload))
  }

  /** Reading a built frame gives back what was framed. */
  lemma ParseBuild(cls: Byte, id: Byte, payload: seq<Byte>)
    requires |payload| <= 0xFFFF
    ensures ParseCasicFrame(BuildCasicFrame(cls, id, payload).value) == Ok(CasicMessage(cls, id, payload))
  {
    BuildCasicFrameLayout(cls, id, payload);
    var f := BuildCasicFrame(cls, id, payload).value;
    assert f[6..|f| - 4] == payload;
  }

  /** A frame that reads correctly is exactly the frame built from its parts. */
  lemma BuildParse(frame: seq<Byte>)
    requires ParseCasicFrame(frame).Ok?
    ensures var m := ParseCasicFrame(frame).value;
      |m.payload| <= 0xFFFF && BuildCasicFrame(m.cls, m.id, m.payload) == Ok(frame)
  {
    var m := ParseCasicFrame(frame).value;
    var lenField, ckField := frame[2..4], frame[|frame| - 4..];
    var n := FromLe(lenField);
    LeInverse(lenField);
    LeInverse(ckField);
    LeRoundTrip(n, 2);
    Pow256Values();
    assert n < 0x1_0000 && |m.payload| == n;
    assert ToLe(CasicChecksum(m.cls, m.id, m.payload), 4) == ckField;
    assert frame == Sync + lenField + [m.cls, m.id] + m.payload + ckField;
  }

  /** Zero-padding the payload first changes only the length in the seed:
      the checksum already covers the padded words. */
  lemma ChecksumCoversPadding(cls: Byte, id: Byte, payload: seq<Byte>)
    requires |PadTo4(payload)| <= 0xFFFF
    ensures (CasicChecksum(cls, id, PadTo4(payload)) - CasicChecksum(cls, id, payload)
             - (|PadTo4(payload)| - |payload|)) % Mod32 == 0
  {
    var p := PadTo4(payload);
    assert PadTo4(p) == p;
    var s := SumWords(p);
    var a, b := CasicSeed(cls, id, |p|) + s, CasicSeed(cls, id, |payload|) + s;
    var qa, qb := a / Mod32, b / Mod32;
    assert a - b == |p| - |payload|;
    assert CasicChecksum(cls, id, p) - CasicChecksum(cls, id, payload) - (|p| - |payload|)
        == Mod32 * (qb - qa);
    DivModUnique(Mod32 * (qb - qa), Mod32, qb - qa, 0);
  }

  /** With the class and id in swapped seed positions, `csip_pack` and
      `build_casic_frame` never agree on the checksum of a message whose class
      and id differ. */
  lemma ChecksumDiffersFromCsip(cls: Byte, id: Byte, payload: seq<Byte>)
    requires cls != id && |PadTo4(payload)| <= 0xFFFF
    ensures CasicChecksum(cls, id, payload) != CsipChecksum(cls, id, PadTo4(payload))
  {
    var p := PadTo4(payload);
    CsipChecksumInRange(cls, id, p);
    var s := SumWords(p);
    var a, b := CasicSeed(cls, id, |payload|) + s, CsipSeed(cls, id, |p|) + s;
    var diff := (cls - id) * 0xFF_0000 + |payload| - |p|;
    assert a - b == diff;
    if cls > id {
      assert 0 < diff < Mod32;
    } else {
      assert -Mod32 < diff < 0;
    }
    if a % Mod32 == b % Mod32 {
      var qa, qb := a / Mod32, b / Mod32;
      assert diff == (qa - qb) * Mod32;
      MulAtLeast(Mod32, qa - qb);
    }
  }

  /** For a payload already a multiple of four bytes the two frames differ
      only in their checksum. */
  lemma SameFrameAsCsipButChecksum(cls: Byte, id: Byte, payload: seq<Byte>)
    requires |payload| % 4 == 0 && |payload| <= 0xFFFF
    ensures CsipPack(cls, id, payload).Ok?
    ensures var c, f := CsipPack(cls, id, payload).value, BuildCasicFrame(cls, id, payload).value;
      && |c| == |f| && c[..|payload| + 6] == f[..|payload| + 6]
      && (cls != id ==> c[|payload| + 6..] != f[|payload| + 6..])
  {
    BuildCasicFrameLayout(cls, id, payload);
    CsipPackLayout(cls, id, payload);
    var c, f := CsipPack(cls, id, payload).value, BuildCasicFrame(cls, id, payload).value;
    assert c[..|payload| + 6] == Sync + ToLe(|payload|, 2) + [cls, id] + payload;
    assert f[..|payload| + 6] == Sync + ToLe(|payload|, 2) + [cls, id] + payload;
    if cls != id {
      ChecksumDiffersFromCsip(cls, id, payload);
      CsipChecksumInRange(cls, id, payload);
    }
  }

  // ---------------------------------------------------------------------------
  // build_payload_gps_eph_casic and make_casic_gps_eph_frames

  /** IEEE-754 values are carried as their encoded bytes. */
  type Double = s: seq<Byte> | |s| == 8 witness [0, 0, 0, 0, 0, 0, 0, 0]
  type Single = s: seq<Byte> | |s| == 4 witness [0, 0, 0, 0]

  /** The `GpsEph` dataclass of `casic.py`; `ura` is `int(e.ura)`. */
  datatype CasicEph = CasicEph(
    prn: int, week: int, svHealth: int, ura: int,
    toe: Double, sqrtA: Double, ecc: Double, i0: Double, omega0: Double, w: Double, m0: Double,
    deltaN: Single, omegaDot: Single, idot: Single,
    cuc: Single, cus: Single, crc: Single, crs: Single, cic: Single, cis: Single,
    af0: Double, af1: Single, af2: Single)

  /** `struct.pack("<BBH", prn & 0xFF, svHealth & 0xFF, week & 0xFFFF)`. */
  function EphHeader(e: CasicEph): seq<Byte> {
    [e.prn % 0x100, e.svHealth % 0x100] + ToLe(e.week % 0x1_0000, 2)
  }

  /** The seven orbit doubles `toe_s` .. `M0`. */
  function OrbitBlock(e: CasicEph): (r: seq<Byte>)
    ensures |r| == 56
  {
    e.toe + e.sqrtA + e.ecc + e.i0 + e.omega0 + e.w + e.m0
  }

  /** `struct.pack("<fff", deltaN, OmegaDot, IDOT)`. */
  function RateBlock(e: CasicEph): (r: seq<Byte>)
    ensures |r| == 12
  {
    e.deltaN + e.omegaDot + e.idot
  }

  /** The six harmonic floats, then `struct.pack("<dff", af0, af1, af2)`
      and `int(ura) & 0xFF`. */
  function TailBlock(e: CasicEph): (r: seq<Byte>)
    ensures |r| == 41
  {
    e.cuc + e.cus + e.crc + e.crs + e.cic + e.cis + e.af0 + e.af1 + e.af2 + [e.ura % 0x100]
  }

  /** The twelve packed parts joined, before the cut: 113 bytes. */
  function EphParts(e: CasicEph): (r: seq<Byte>)
    ensures |r| == 113
  {
    EphHeader(e) + OrbitBlock(e) + RateBlock(e) + TailBlock(e)
  }

  /** Zero-pad to n bytes if shorter, then cut to n. */
  function FitTo(p: seq<Byte>, n: nat): (r: seq<Byte>)
    ensures |r| == n
    ensures |p| >= n ==> r == p[..n]
    ensures |p| < n ==> r[..|p|] == p && forall i :: |p| <= i < n ==> r[i] == 0
  {
    if |p| < n then p + seq(n - |p|, _ => 0) else p[..n]
  }

  /** `build_payload_gps_eph_casic`. */
  function BuildPayloadGpsEph(e: CasicEph): (r: seq<Byte>)
    ensures |r| == 72
  {
    FitTo(EphParts(e), 72)
  }

  /** What survives the cut: the header, the seven orbit doubles and the
      three rate floats; the harmonics, the clock terms and the URA are lost. */
  lemma PayloadContents(e: CasicEph)
    ensures var r := BuildPayloadGpsEph(e);
      && r[0] == e.prn % 0x100 && r[1] == e.svHealth % 0x100
      && FromLe(r[2..4]) == e.week % 0x1_0000
      && r[4..60] == OrbitBlock(e)
      && r[60..72] == RateBlock(e)
  {
    var r := BuildPayloadGpsEph(e);
    assert r == EphHeader(e) + OrbitBlock(e) + RateBlock(e);
    Pow256Values();
    UnsignedRoundTrip(e.week % 0x1_0000, 2);
    assert r[2..4] == ToLe(e.week % 0x1_0000, 2);
  }

  /** Two ephemerides that differ only after IDOT give the same payload. */
  lemma PayloadIgnoresTail(e1: CasicEph, e2: CasicEph)
    requires e1.prn == e2.prn && e1.week == e2.week && e1.svHealth == e2.svHealth
    requires e1.toe == e2.toe && e1.sqrtA == e2.sqrtA && e1.ecc == e2.ecc && e1.i0 == e2.i0
    requires e1.omega0 == e2.omega0 && e1.w == e2.w && e1.m0 == e2.m0
    requires e1.deltaN == e2.deltaN && e1.omegaDot == e2.omegaDot && e1.idot == e2.idot
    ensures BuildPayloadGpsEph(e1) == BuildPayloadGpsEph(e2)
  {
    assert BuildPayloadGpsEph(e1) == EphHeader(e1) + OrbitBlock(e1) + RateBlock(e1);
    assert BuildPayloadGpsEph(e2) == EphHeader(e2) + OrbitBlock(e2) + RateBlock(e2);
  }

  /** `make_casic_gps_eph_frames`: one class 0x08 / id 0x07 frame per
      ephemeris, in input order. */
  function MakeCasicGpsEphFrames(es: seq<CasicEph>): (r: seq<seq<Byte>>)
    ensures |r| == |es|
    ensures forall k :: 0 <= k < |es| ==> |r[k]| == 82
  {
    seq(|es|, k requires 0 <= k < |es| => BuildCasicFrame(0x08, 0x07, BuildPayloadGpsEph(es[k])).value)
  }

  /** Each frame reads back as a GPS ephemeris message with that payload. */
  lemma FramesReadBack(es: seq<CasicEph>, k: nat)
    requires k < |es|
    ensures ParseCasicFrame(MakeCasicGpsEphFrames(es)[k])
         == Ok(CasicMessage(0x08, 0x07, BuildPayloadGpsEph(es[k])))
  {
    ParseBuild(0x08, 0x07, BuildPayloadGpsEph(es[k]));
  }

  // ---------------------------------------------------------------------------
  // default_brdc_url

  const CddisBase: string := "https://cddis.nasa.gov/archive/gnss/data/daily/"

  /** `default_brdc_url(year, doy)`; `year % 100` is Python's floor modulo,
      never negative. */
  function DefaultBrdcUrl(year: int, doy: int): string {
    var yy := year % 100;
    CddisBase + IntToString(year) + "/" + FormatInt(doy, 3) + "/" + FormatInt(yy, 2) + "n/"
      + Rinex.V2Name(doy, yy)
  }

  /** The URL ends in the RINEX 2 file of that day. */
  lemma DefaultUrlNamesDay(year: int, doy: int)
    requires 0 <= doy
    ensures Rinex.LastSegment(DefaultBrdcUrl(year, doy)) == Rinex.V2Name(doy, year % 100)
  {
    var yy := year % 100;
    var dir := CddisBase + IntToString(year) + "/" + FormatInt(doy, 3) + "/" + FormatInt(yy, 2) + "n";
    assert DefaultBrdcUrl(year, doy) == dir + "/" + Rinex.V2Name(doy, yy);
    Rinex.V2NameHasNoSlash(doy, yy);
    Rinex.LastSegmentOf(dir, Rinex.V2Name(doy, yy));
  }

  /** Day of year and year modulo 100 can be read back from that file name. */
  lemma DefaultUrlReadsBack(year: int, doy: int)
    requires 0 <= doy < 1000
    ensures Rinex.ReadV2Name(Rinex.LastSegment(DefaultBrdcUrl(year, doy))) == Some(Rinex.YearDay(0, year % 100, doy))
  {
    DefaultUrlNamesDay(year, doy);
    Rinex.V2NameRoundTrip(doy, year % 100);
  }

  /** The CDDIS default and the last BKG candidate name the same file. */
  lemma DefaultUrlMatchesBkgFallback(d: Calendar.Date)
    requires Calendar.Valid(d)
    ensures Rinex.LastSegment(DefaultBrdcUrl(d.year, Calendar.DayOfYear(d)))
         == Rinex.LastSegment(Rinex.V3Candidates(d)[5])
  {
    DefaultUrlNamesDay(d.year, Calendar.DayOfYear(d));
    Rinex.LastCandidateIsV2(d);
  }
}
