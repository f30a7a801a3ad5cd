/** AID-INI (class 0x0B, id 0x01), the receiver's initial position and time
    aid, as built by `make_aid_ini` and read by `decode_aid_ini`. The double
    and float fields are carried as the unsigned integer of their IEEE bit
    pattern; converting a Python float to that pattern is outside this model,
    as is reading the clock (week number and time of week are parameters). */
module AidIni {
  import opened Bytes
  import opened Wrappers
  import opened Csip
  import opened Layout
  import opened FrameCodec

  const AidIniClass: Byte := 0x0B
  const AidIniId: Byte := 0x01
  const PayloadSize: nat := 56

  /** Flag bits: B0 position valid, B1 time valid, B4 frequency given, B5 LLA. */
  const DefaultFlags: int := 0x23

  /** Decoded payload, in `"<ddd d f f f f I H B B"` order. */
  datatype AidIni = AidIni(
    lat: int, lon: int, alt: int, tow: int,
    freqBias: int, pAcc: int, tAcc: int, fAcc: int,
    reserved: int, wn: int, timeSource: int, flags: int)

  /** Keyword arguments of `make_aid_ini` (floats as bit patterns). */
  datatype AidIniArgs = AidIniArgs(
    lat: int, lon: int, alt: int,
    freqBias: int, pAcc: int, tAcc: int, fAcc: int,
    flags: Option<int>, reserved: int)

  const AidDoubles: seq<Field> := [
    Field(8, false, Mask), Field(8, false, Mask), Field(8, false, Mask), Field(8, false, Mask)]
  const AidFloats: seq<Field> := [
    Field(4, false, Mask), Field(4, false, Mask), Field(4, false, Mask), Field(4, false, Mask)]
  const AidTail: seq<Field> := [
    Field(4, false, Mask), Field(2, false, Mask), Field(1, false, Mask), Field(1, false, Mask)]
  const AidLayout: seq<Field> := AidDoubles + AidFloats + AidTail

  lemma {:induction false} AidLayoutSize()
    ensures Packable(AidLayout) && Size(AidLayout) == PayloadSize
  {
    assert ValidLayout(AidDoubles) && Size(AidDoubles) == 32;
    assert ValidLayout(AidFloats) && Size(AidFloats) == 16;
    assert ValidLayout(AidTail) && Size(AidTail) == 8;
    ValidAppend(AidDoubles, AidFloats);
    ValidAppend(AidDoubles + AidFloats, AidTail);
    SizeAppend(AidDoubles, AidFloats);
    SizeAppend(AidDoubles + AidFloats, AidTail);
  }

  function ToFields(a: AidIni): (r: seq<int>)
    ensures |r| == |AidLayout|
  {
    [a.lat, a.lon, a.alt, a.tow, a.freqBias, a.pAcc, a.tAcc, a.fAcc,
     a.reserved, a.wn, a.timeSource, a.flags]
  }

  function FromFields(s: seq<int>): (a: AidIni)
    requires |s| == |AidLayout|
  {
    AidIni(s[0], s[1], s[2], s[3], s[4], s[5], s[6], s[7], s[8], s[9], s[10], s[11])
  }

  lemma {:induction false} FieldsRoundTrip(a: AidIni, s: seq<int>)
    requires |s| == |AidLayout|
    ensures FromFields(ToFields(a)) == a
    ensures ToFields(FromFields(s)) == s
  {
  }

  predicate InRange(a: AidIni) {
    FitsLayout(AidLayout, ToFields(a))
  }

  /** The fields `make_aid_ini` packs: `flags` defaults to 0x23, the time
      source is always 0 (GPS time). Masking happens at packing. */
  function Fields(args: AidIniArgs, wn: int, tow: int): AidIni {
    AidIni(args.lat, args.lon, args.alt, tow, args.freqBias, args.pAcc, args.tAcc, args.fAcc,
           args.reserved, wn, 0, args.flags.GetOr(DefaultFlags))
  }

  /** `make_aid_ini(...)` with `gps_week_tow()` supplied as `wn` and `tow`. */
  function MakeAidIni(args: AidIniArgs, wn: int, tow: int): (r: seq<Byte>)
    ensures |r| == PayloadSize + 10
    ensures WellFormed(r)
    ensures r[..2] == Sync && r[2..4] == [56, 0] && r[4] == AidIniClass && r[5] == AidIniId
  {
    AidLayoutSize();
    var f := PackRecord(AidIniClass, AidIniId, AidLayout, ToFields(Fields(args, wn, tow)));
    LeInverse(f[2..4]);
    assert ToLe(56, 2) == [56, 0];
    f
  }

  /** `decode_aid_ini`: header, then message, then a payload of exactly 56 bytes. */
  function DecodeAidIni(frame: seq<Byte>): (r: Result<AidIni, DecodeError>)
    ensures r == Err(NotCsipFrame) <==> !(|frame| >= 6 && frame[..2] == Sync)
    ensures r.Err? && r.error.WrongMessage? <==>
      |frame| >= 6 && frame[..2] == Sync && (frame[4] != AidIniClass || frame[5] != AidIniId)
    ensures r == Err(WrongSize) <==>
      |frame| >= 6 && frame[..2] == Sync && frame[4] == AidIniClass && frame[5] == AidIniId
      && |PayloadSlice(frame, FromLe(frame[2..4]))| != PayloadSize
    ensures r.Ok? ==> InRange(r.value)
  {
    AidLayoutSize();
    match DecodeRecord(AidIniClass, AidIniId, AidLayout, frame)
    case Err(err) => if err == Truncated then Err(WrongSize) else Err(err)
    case Ok(vals) =>
      if |PayloadSlice(frame, FromLe(frame[2..4]))| != PayloadSize then Err(WrongSize)
      else
        FieldsRoundTrip(FromFields(vals), vals);
        Ok(FromFields(vals))
  }

  /** The AID-INI fields a built frame carries: every argument reduced to its
      field width, the week number modulo 2^16, time source 0, and the
      default flags when none were given. */
  function Expected(args: AidIniArgs, wn: int, tow: int): AidIni {
    AidIni(
      args.lat % 0x1_0000_0000_0000_0000, args.lon % 0x1_0000_0000_0000_0000,
      args.alt % 0x1_0000_0000_0000_0000, tow % 0x1_0000_0000_0000_0000,
      args.freqBias % 0x1_0000_0000, args.pAcc % 0x1_0000_0000,
      args.tAcc % 0x1_0000_0000, args.fAcc % 0x1_0000_0000,
      args.reserved % 0x1_0000_0000, wn % 0x1_0000, 0,
      (if args.flags.Some? then args.flags.value else DefaultFlags) % 0x100)
  }

  lemma {:induction false} StoredFields(args: AidIniArgs, wn: int, tow: int)
    ensures FromFields(NormalizeAll(AidLayout, ToFields(Fields(args, wn, tow)))) == Expected(args, wn, tow)
  {
    Pow256Values();
  }

  /** Decoding what was built gives back the expected fields. */
  lemma {:induction false} DecodeMake(args: AidIniArgs, wn: int, tow: int)
    ensures DecodeAidIni(MakeAidIni(args, wn, tow)) == Ok(Expected(args, wn, tow))
  {
    AidLayoutSize();
    var vals := ToFields(Fields(args, wn, tow));
    DecodePacked(AidIniClass, AidIniId, AidLayout, vals);
    var f := MakeAidIni(args, wn, tow);
    assert |PayloadSlice(f, FromLe(f[2..4]))| == PayloadSize;
    StoredFields(args, wn, tow);
  }

  /** Without explicit flags the receiver is told 0x23: position valid (B0),
      time valid (B1) and LLA given (B5), frequency not given (B4). */
  lemma {:induction false} DefaultFlagsSent(args: AidIniArgs, wn: int, tow: int)
    requires args.flags.None?
    ensures var r := DecodeAidIni(MakeAidIni(args, wn, tow));
      r.Ok? && r.value.flags == DefaultFlags && r.value.timeSource == 0
  {
    var e := Expected(args, wn, tow);
    assert e.flags == DefaultFlags % 0x100 == DefaultFlags;
    DecodeMake(args, wn, tow);
  }

  /** A well-formed 66-byte AID-INI frame whose time source is 0 (GPS time)
      is exactly what `make_aid_ini` builds from its decoded fields. */
  lemma {:induction false} MakeDecode(frame: seq<Byte>)
    requires WellFormed(frame) && |frame| == PayloadSize + 10
    requires frame[4] == AidIniClass && frame[5] == AidIniId
    requires DecodeAidIni(frame).Ok? ==> DecodeAidIni(frame).value.timeSource == 0
    ensures DecodeAidIni(frame).Ok?
    ensures var a := DecodeAidIni(frame).value;
      MakeAidIni(AidIniArgs(a.lat, a.lon, a.alt, a.freqBias, a.pAcc, a.tAcc, a.fAcc, Some(a.flags), a.reserved),
                 a.wn, a.tow) == frame
  {
    AidLayoutSize();
    RepackDecoded(AidIniClass, AidIniId, AidLayout, frame);
    var vals := DecodeRecord(AidIniClass, AidIniId, AidLayout, frame).value;
    var a := FromFields(vals);
    FieldsRoundTrip(a, vals);
    assert Fields(AidIniArgs(a.lat, a.lon, a.alt, a.freqBias, a.pAcc, a.tAcc, a.fAcc, Some(a.flags), a.reserved),
                  a.wn, a.tow) == a;
  }
}
