/** MSG-BDSEPH (class 0x08, id 0x02): the raw-integer layer of
    `make_msg_bdseph` and `decode_bdseph`. Every field is the integer that is
    packed; the float scaling that produces it is outside this model. */
module BdsEph {
  import opened Bytes
  import opened Wrappers
  import opened Csip
  import opened Layout
  import opened FrameCodec
  import Saturation

  const BdsEphClass: Byte := 0x08
  const BdsEphId: Byte := 0x02

  /** Fields in `decode_bdseph` read order. */
  datatype BdsEph = BdsEph(
    reserved0: int, sqrtA: int, ecc: int,
    omega: int, m0: int, i0: int, omega0: int, omegaDot: int,
    deltaN: int, iDot: int, cuc: int, cus: int, crc: int, crs: int, cic: int, cis: int,
    toe: int, week: int, reserved2: int, toc: int,
    af0: int, af1: int, af2: int, tgd: int,
    iodc: int, iode: int, ura: int, health: int, svid: int, valid: int, reserved3: int)

  /** How each field is packed; unlike GPSEPH the harmonic corrections are
      4-byte fields and the group delay is a clamped 2-byte count of 0.1 ns. */
  const BdsOrbit: seq<Field> := [
    Field(4, false, Mask),                                  // reserved0
    Field(4, false, Saturate), Field(4, false, Saturate),   // sqrtA, e
    Field(4, true, Saturate), Field(4, true, Saturate),     // omega, M0
    Field(4, true, Saturate), Field(4, true, Saturate),     // i0, OMEGA0
    Field(4, true, Saturate)]                               // OMEGADOT
  const BdsCorrections: seq<Field> := [
    Field(2, true, Saturate), Field(2, true, Saturate),     // DeltaN, IDOT
    Field(4, true, Saturate), Field(4, true, Saturate),     // cuc, cus
    Field(4, true, Saturate), Field(4, true, Saturate),     // crc, crs
    Field(4, true, Saturate), Field(4, true, Saturate)]     // cic, cis
  const BdsClock: seq<Field> := [
    Field(4, false, Saturate),                              // toe
    Field(2, false, Mask), Field(2, false, Mask),           // week, reserved2
    Field(4, false, Saturate),                              // toc
    Field(4, true, Saturate), Field(4, true, Saturate),     // af0, af1
    Field(2, true, Saturate), Field(2, true, Saturate)]     // af2, tgd
  const BdsStatus: seq<Field> := [
    Field(1, false, Mask), Field(1, false, Mask),           // iodc, iode
    Field(1, false, Mask), Field(1, false, Mask),           // ura, health
    Field(1, false, Mask), Field(1, false, Mask),           // svid, valid
    Field(2, false, Mask)]                                  // reserved3
  const BdsLayout: seq<Field> := BdsOrbit + BdsCorrections + BdsClock + BdsStatus

  function ToFields(e: BdsEph): (r: seq<int>)
    ensures |r| == |BdsLayout|
  {
    [e.reserved0, e.sqrtA, e.ecc,
     e.omega, e.m0, e.i0, e.omega0, e.omegaDot,
     e.deltaN, e.iDot, e.cuc, e.cus, e.crc, e.crs, e.cic, e.cis,
     e.toe, e.week, e.reserved2, e.toc,
     e.af0, e.af1, e.af2, e.tgd,
     e.iodc, e.iode, e.ura, e.health, e.svid, e.valid, e.reserved3]
  }

  function FromFields(s: seq<int>): (e: BdsEph)
    requires |s| == |BdsLayout|
  {
    BdsEph(s[0], s[1], s[2], s[3], s[4], s[5], s[6], s[7], s[8], s[9],
           s[10], s[11], s[12], s[13], s[14], s[15], s[16], s[17], s[18], s[19],
           s[20], s[21], s[22], s[23], s[24], s[25], s[26], s[27], s[28], s[29], s[30])
  }

  lemma FieldsRoundTrip(e: BdsEph, s: seq<int>)
    requires |s| == |BdsLayout|
    ensures FromFields(ToFields(e)) == e
    ensures ToFields(FromFields(s)) == s
  {
  }

  lemma BdsLayoutSize()
    ensures Packable(BdsLayout) && Size(BdsLayout) == 92
  {
    OrbitSize();
    CorrectionsSize();
    ClockSize();
    StatusSize();
    ValidAppend(BdsOrbit, BdsCorrections);
    ValidAppend(BdsOrbit + BdsCorrections, BdsClock);
    ValidAppend(BdsOrbit + BdsCorrections + BdsClock, BdsStatus);
    SizeAppend(BdsOrbit, BdsCorrections);
    SizeAppend(BdsOrbit + BdsCorrections, BdsClock);
    SizeAppend(BdsOrbit + BdsCorrections + BdsClock, BdsStatus);
  }

  lemma OrbitSize()
    ensures ValidLayout(BdsOrbit) && Size(BdsOrbit) == 32
  {
  }

  lemma CorrectionsSize()
    ensures ValidLayout(BdsCorrections) && Size(BdsCorrections) == 28
  {
  }

  lemma ClockSize()
    ensures ValidLayout(BdsClock) && Size(BdsClock) == 24
  {
  }

  lemma StatusSize()
    ensures ValidLayout(BdsStatus) && Size(BdsStatus) == 8
  {
  }

  /** Every field within the range of its width. */
  predicate InRange(e: BdsEph) {
    FitsLayout(BdsLayout, ToFields(e))
  }

  /** `make_msg_bdseph` on raw integers. */
  function MakeMsgBdsEph(e: BdsEph): (r: seq<Byte>)
    ensures |r| == 102
    ensures WellFormed(r)
    ensures r[..2] == Sync && r[2..4] == [92, 0] && r[4] == BdsEphClass && r[5] == BdsEphId
  {
    BdsLayoutSize();
    var f := PackRecord(BdsEphClass, BdsEphId, BdsLayout, ToFields(e));
    LeInverse(f[2..4]);
    assert ToLe(92, 2) == [92, 0];
    f
  }

  /** `decode_bdseph` on raw integers. */
  function DecodeBdsEph(frame: seq<Byte>): (r: Result<BdsEph, DecodeError>)
    ensures r == Err(NotCsipFrame) <==> !(|frame| >= 6 && frame[..2] == Sync)
    ensures r.Err? && r.error.WrongMessage? <==>
      |frame| >= 6 && frame[..2] == Sync && (frame[4] != BdsEphClass || frame[5] != BdsEphId)
    ensures r == Err(Truncated) <==>
      |frame| >= 6 && frame[..2] == Sync && frame[4] == BdsEphClass && frame[5] == BdsEphId
      && |PayloadSlice(frame, FromLe(frame[2..4]))| < 92
    ensures r.Ok? ==> InRange(r.value)
  {
    BdsLayoutSize();
    match DecodeRecord(BdsEphClass, BdsEphId, BdsLayout, frame)
    case Err(err) => Err(err)
    case Ok(vals) =>
      FieldsRoundTrip(FromFields(vals), vals);
      Ok(FromFields(vals))
  }

  /** What `make_msg_bdseph` actually stores for e. */
  function Stored(e: BdsEph): BdsEph {
    FromFields(NormalizeAll(BdsLayout, ToFields(e)))
  }

  /** Decoding a built frame returns the stored fields. */
  lemma DecodeMake(e: BdsEph)
    ensures DecodeBdsEph(MakeMsgBdsEph(e)) == Ok(Stored(e))
  {
    BdsLayoutSize();
    DecodePacked(BdsEphClass, BdsEphId, BdsLayout, ToFields(e));
  }

  /** In-range fields come back unchanged. */
  lemma DecodeMakeInRange(e: BdsEph)
    requires InRange(e)
    ensures DecodeBdsEph(MakeMsgBdsEph(e)) == Ok(e)
  {
    DecodeMake(e);
    StoredInRange(e);
  }

  lemma StoredInRange(e: BdsEph)
    requires InRange(e)
    ensures Stored(e) == e
  {
    NormalizeFitting(BdsLayout, ToFields(e));
    FieldsRoundTrip(e, ToFields(e));
  }

  /** The `& 0xFFFF` and `& 0xFF` fields wrap; harmonics, clock terms and the
      0.1 ns group delay saturate. */
  lemma StoredMasksAndClamps(e: BdsEph)
    ensures Stored(e).week == e.week % 0x1_0000
    ensures Stored(e).reserved2 == e.reserved2 % 0x1_0000
    ensures Stored(e).reserved3 == e.reserved3 % 0x1_0000
    ensures Stored(e).reserved0 == e.reserved0 % 0x1_0000_0000
    ensures Stored(e).iodc == e.iodc % 0x100
    ensures Stored(e).iode == e.iode % 0x100
    ensures Stored(e).ura == e.ura % 0x100
    ensures Stored(e).health == e.health % 0x100
    ensures Stored(e).svid == e.svid % 0x100
    ensures Stored(e).valid == e.valid % 0x100
    ensures Stored(e).cuc == Saturation.ClampI32(e.cuc)
    ensures Stored(e).tgd == Saturation.ClampI16(e.tgd)
    ensures Stored(e).toe == Saturation.Clamp(e.toe, 0, 0xFFFF_FFFF)
  {
    Pow256Values();
  }

  /** Every well-formed 102-byte BDSEPH frame is rebuilt byte for byte from
      its decoded fields. */
  lemma MakeDecode(frame: seq<Byte>)
    requires WellFormed(frame) && |frame| == 102
    requires frame[4] == BdsEphClass && frame[5] == BdsEphId
    ensures DecodeBdsEph(frame).Ok?
    ensures MakeMsgBdsEph(DecodeBdsEph(frame).value) == frame
  {
    BdsLayoutSize();
    RepackDecoded(BdsEphClass, BdsEphId, BdsLayout, frame);
    var vals := DecodeRecord(BdsEphClass, BdsEphId, BdsLayout, frame).value;
    FieldsRoundTrip(FromFields(vals), vals);
  }
}
