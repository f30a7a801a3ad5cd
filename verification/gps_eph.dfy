/** MSG-GPSEPH (class 0x08, id 0x07): the raw-integer layer of
    `make_msg_gpseph` and `decode_gpseph`. Every field is the integer that is
    packed, i.e. the value after the float scaling `round(x * 2^k)`; the
    scaling itself is outside this model. */
module GpsEph {
  import opened Bytes
  import opened Wrappers
  import opened Csip
  import opened Layout
  import opened FrameCodec
  import Saturation

  const GpsEphClass: Byte := 0x08
  const GpsEphId: Byte := 0x07

  /** Fields in `decode_gpseph` read order. */
  datatype GpsEph = GpsEph(
    reserved0: int, sqrtA: int, ecc: int,
    omega: int, m0: int, i0: int, omega0: int, omegaDot: int,
    deltaN: int, iDot: int, cuc: int, cus: int, crc: int, crs: int, cic: int, cis: int,
    toe: int, week: int, toc: int,
    af0: int, af1: int, af2: int, tgd: int,
    iodc: int, ura: int, health: int, svid: int, valid: int, reserved1: int)

  /** How each field is packed: `& mask` fields wrap (`Mask`), the
      `clamp_i*`, `_iN_scaled` and `_uN_scaled` fields saturate (`Saturate`).
      Grouped so that the size of each group is computed separately. */
  const GpsOrbit: seq<Field> := [
    Field(4, false, Mask),                                  // reserved0
    Field(4, false, Saturate), Field(4, false, Saturate),   // sqrtA, e
    Field(4, true, Saturate), Field(4, true, Saturate),     // omega, M0
    Field(4, true, Saturate), Field(4, true, Saturate),     // i0, OMEGA0
    Field(4, true, Saturate)]                               // OMEGADOT
  const GpsCorrections: seq<Field> := [
    Field(2, true, Saturate), Field(2, true, Saturate),     // DeltaN, IDOT
    Field(2, true, Saturate), Field(2, true, Saturate),     // cuc, cus
    Field(2, true, Saturate), Field(2, true, Saturate),     // crc, crs
    Field(2, true, Saturate), Field(2, true, Saturate)]     // cic, cis
  const GpsClock: seq<Field> := [
    Field(2, false, Saturate),                              // toe
    Field(2, false, Mask),                                  // week
    Field(4, false, Saturate),                              // toc
    Field(4, true, Saturate), Field(2, true, Saturate),     // af0, af1
    Field(1, true, Saturate), Field(1, true, Saturate)]     // af2, tgd
  const GpsStatus: seq<Field> := [
    Field(2, false, Mask),                                  // iodc
    Field(1, false, Mask), Field(1, false, Mask),           // ura, health
    Field(1, false, Mask), Field(1, false, Mask),           // svid, valid
    Field(2, false, Mask)]                                  // reserved1
  const GpsLayout: seq<Field> := GpsOrbit + GpsCorrections + GpsClock + GpsStatus

  function ToFields(e: GpsEph): (r: seq<int>)
    ensures |r| == |GpsLayout|
  {
    [e.reserved0, e.sqrtA, e.ecc,
     e.omega, e.m0, e.i0, e.omega0, e.omegaDot,
     e.deltaN, e.iDot, e.cuc, e.cus, e.crc, e.crs, e.cic, e.cis,
     e.toe, e.week, e.toc,
     e.af0, e.af1, e.af2, e.tgd,
     e.iodc, e.ura, e.health, e.svid, e.valid, e.reserved1]
  }

  function FromFields(s: seq<int>): (e: GpsEph)
    requires |s| == |GpsLayout|
  {
    GpsEph(s[0], s[1], s[2], s[3], s[4], s[5], s[6], s[7], s[8], s[9],
           s[10], s[11], s[12], s[13], s[14], s[15], s[16], s[17], s[18], s[19],
           s[20], s[21], s[22], s[23], s[24], s[25], s[26], s[27], s[28])
  }

  lemma FieldsRoundTrip(e: GpsEph, s: seq<int>)
    requires |s| == |GpsLayout|
    ensures FromFields(ToFields(e)) == e
    ensures ToFields(FromFields(s)) == s
  {
  }

  lemma GpsLayoutSize()
    ensures Packable(GpsLayout) && Size(GpsLayout) == 72
  {
    OrbitSize();
    CorrectionsSize();
    ClockSize();
    StatusSize();
    ValidAppend(GpsOrbit, GpsCorrections);
    ValidAppend(GpsOrbit + GpsCorrections, GpsClock);
    ValidAppend(GpsOrbit + GpsCorrections + GpsClock, GpsStatus);
    SizeAppend(GpsOrbit, GpsCorrections);
    SizeAppend(GpsOrbit + GpsCorrections, GpsClock);
    SizeAppend(GpsOrbit + GpsCorrections + GpsClock, GpsStatus);
  }

  lemma OrbitSize()
    ensures ValidLayout(GpsOrbit) && Size(GpsOrbit) == 32
  {
  }

  lemma CorrectionsSize()
    ensures ValidLayout(GpsCorrections) && Size(GpsCorrections) == 16
  {
  }

  lemma ClockSize()
    ensures ValidLayout(GpsClock) && Size(GpsClock) == 16
  {
  }

  lemma StatusSize()
    ensures ValidLayout(GpsStatus) && Size(GpsStatus) == 8
  {
  }

  /** Every field within the range of its width. */
  predicate InRange(e: GpsEph) {
    FitsLayout(GpsLayout, ToFields(e))
  }

  /** `make_msg_gpseph` on raw integers. */
  function MakeMsgGpsEph(e: GpsEph): (r: seq<Byte>)
    ensures |r| == 82
    ensures WellFormed(r)
    ensures r[..2] == Sync && r[2..4] == [72, 0] && r[4] == GpsEphClass && r[5] == GpsEphId
  {
    GpsLayoutSize();
    var f := PackRecord(GpsEphClass, GpsEphId, GpsLayout, ToFields(e));
    LeInverse(f[2..4]);
    assert ToLe(72, 2) == [72, 0];
    f
  }

  /** `decode_gpseph` on raw integers. */
  function DecodeGpsEph(frame: seq<Byte>): (r: Result<GpsEph, DecodeError>)
    ensures r == Err(NotCsipFrame) <==> !(|frame| >= 6 && frame[..2] == Sync)
    ensures r.Err? && r.error.WrongMessage? <==>
      |frame| >= 6 && frame[..2] == Sync && (frame[4] != GpsEphClass || frame[5] != GpsEphId)
    ensures r == Err(Truncated) <==>
      |frame| >= 6 && frame[..2] == Sync && frame[4] == GpsEphClass && frame[5] == GpsEphId
      && |PayloadSlice(frame, FromLe(frame[2..4]))| < 72
    ensures r.Ok? ==> InRange(r.value)
  {
    GpsLayoutSize();
    match DecodeRecord(GpsEphClass, GpsEphId, GpsLayout, frame)
    case Err(err) => Err(err)
    case Ok(vals) =>
      FieldsRoundTrip(FromFields(vals), vals);
      Ok(FromFields(vals))
  }

  /** What `make_msg_gpseph` actually stores for e. */
  function Stored(e: GpsEph): GpsEph {
    FromFields(NormalizeAll(GpsLayout, ToFields(e)))
  }

  /** Decoding a built frame returns the stored fields. */
  lemma DecodeMake(e: GpsEph)
    ensures DecodeGpsEph(MakeMsgGpsEph(e)) == Ok(Stored(e))
  {
    GpsLayoutSize();
    DecodePacked(GpsEphClass, GpsEphId, GpsLayout, ToFields(e));
  }

  /** In-range fields come back unchanged. */
  lemma DecodeMakeInRange(e: GpsEph)
    requires InRange(e)
    ensures DecodeGpsEph(MakeMsgGpsEph(e)) == Ok(e)
  {
    DecodeMake(e);
    StoredInRange(e);
  }

  lemma StoredInRange(e: GpsEph)
    requires InRange(e)
    ensures Stored(e) == e
  {
    NormalizeFitting(GpsLayout, ToFields(e));
    FieldsRoundTrip(e, ToFields(e));
  }

  /** `week & 0xFFFF`, `iodc & 0xFFFF`, `reserved1 & 0xFFFF`, `reserved0 & 0xFFFFFFFF`,
      and `& 0xFF` on ura, health, svid and valid: these wrap. The clamped
      fields saturate, for instance omega to the I4 range and af2 to the I1 range. */
  lemma StoredMasksAndClamps(e: GpsEph)
    ensures Stored(e).week == e.week % 0x1_0000
    ensures Stored(e).iodc == e.iodc % 0x1_0000
    ensures Stored(e).reserved1 == e.reserved1 % 0x1_0000
    ensures Stored(e).reserved0 == e.reserved0 % 0x1_0000_0000
    ensures Stored(e).ura == e.ura % 0x100
    ensures Stored(e).health == e.health % 0x100
    ensures Stored(e).svid == e.svid % 0x100
    ensures Stored(e).valid == e.valid % 0x100
    ensures Stored(e).omega == Saturation.ClampI32(e.omega)
    ensures Stored(e).deltaN == Saturation.ClampI16(e.deltaN)
    ensures Stored(e).toe == Saturation.Clamp(e.toe, 0, 0xFFFF)
    ensures Stored(e).af2 == Saturation.Clamp(e.af2, -128, 127)
  {
    Pow256Values();
  }

  /** Every well-formed 82-byte GPSEPH frame (such as the two vendor sample
      frames) is rebuilt byte for byte from its decoded fields. */
  lemma MakeDecode(frame: seq<Byte>)
    requires WellFormed(frame) && |frame| == 82
    requires frame[4] == GpsEphClass && frame[5] == GpsEphId
    ensures DecodeGpsEph(frame).Ok?
    ensures MakeMsgGpsEph(DecodeGpsEph(frame).value) == frame
  {
    GpsLayoutSize();
    RepackDecoded(GpsEphClass, GpsEphId, GpsLayout, frame);
    var vals := DecodeRecord(GpsEphClass, GpsEphId, GpsLayout, frame).value;
    FieldsRoundTrip(FromFields(vals), vals);
  }
}
